/** The state of one battle as the client tracks it, and the transitions the
    protocol handlers apply to it: resolving a pokemon identifier onto one of
    the two teams, side conditions of either side, field conditions and the
    weather. A transition that the program would abort with an exception
    returns a Failure and the caller keeps its previous state, so a failed
    transition never leaves a partial update behind. */
module Battles {

  import opened Results
  import opened Text
  import opened Identifiers

  /** A team never holds more than six pokemon. */
  const TeamCapacity := 6

  /** Static species data, looked up by species id and never modified. */
  datatype SpeciesData = SpeciesData(types: seq<string>, baseStats: map<string, int>)

  type SpeciesTable = map<string, SpeciesData>

  datatype Pokemon = Pokemon(species: string, data: Option<SpeciesData>)

  datatype Battle = Battle(
    playerRole: Option<string>,          // "p1" or "p2" once the client knows its side
    team: map<string, Pokemon>,          // own team, by key `pX: name`
    opponentTeam: map<string, Pokemon>,
    teamSize: map<string, nat>,          // sizes announced by `teamsize`, by role
    sideConditions: set<string>,         // own side's conditions, enum names
    opponentSideConditions: set<string>,
    fields: set<string>,                 // field conditions, enum names
    weather: Option<string>)             // at most one weather, enum name

  datatype BattleError =
    | MalformedIdentifier(identifier: string)
    | TeamFull(key: string)
    | ConditionNotActive(condition: string)
    | MalformedMessage

  /** Neither team is over capacity. */
  predicate Valid(b: Battle) {
    |b.team| <= TeamCapacity && |b.opponentTeam| <= TeamCapacity
  }

  /** A battle before any message: no role, empty teams, no condition, no weather. */
  function NewBattle(): (b: Battle)
    ensures Valid(b)
    ensures b.playerRole.None? && b.weather.None?
    ensures b.team == map[] && b.opponentTeam == map[]
    ensures b.fields == {} && b.sideConditions == {} && b.opponentSideConditions == {}
  {
    Battle(None, map[], map[], map[], {}, {}, {}, None)
  }

  // ---------------------------------------------------------------- pokemon

  /** The part of a `details` payload before its first comma ("Hydreigon, F"). */
  function BeforeComma(s: string): (r: string)
    ensures |r| <= |s| && r == s[..|r|]
    ensures forall i :: 0 <= i < |r| ==> r[i] != ','
  {
    if |s| == 0 || s[0] == ',' then "" else [s[0]] + BeforeComma(s[1..])
  }

  /** The species id of a new pokemon: taken from the details when any are
      given, otherwise from the name the key carries. */
  function SpeciesOf(key: string, details: string): string {
    if details == "" then ToId(NameOf(key)) else ToId(BeforeComma(details))
  }

  function Lookup(table: SpeciesTable, species: string): Option<SpeciesData> {
    if species in table then Some(table[species]) else None
  }

  /** Whether a new key is placed on the client's own team. */
  predicate GoesToOwnTeam(b: Battle, key: string, forceSelfTeam: bool)
    requires |key| >= 2
  {
    forceSelfTeam || b.playerRole == Some(RoleOf(key))
  }

  /** Everything but the two teams is the same. */
  predicate SameButTeams(b: Battle, b': Battle) {
    b'.(team := b.team, opponentTeam := b.opponentTeam) == b
  }

  /** Resolves an identifier to the pokemon it names: a known key (searched on
      the own team first) yields the recorded pokemon and changes nothing; an
      unknown key creates the pokemon on the own team when forced or when the
      key's role is the client's, on the opponent's team otherwise, unless
      that team already holds six. */
  function GetPokemon(b: Battle, table: SpeciesTable, identifier: string, forceSelfTeam: bool, details: string)
    : (r: Result<(Battle, Pokemon), BattleError>)
    ensures !Readable(identifier) ==> r == Failure(MalformedIdentifier(identifier))
    ensures Readable(identifier) ==>
      var key := Canonical(identifier);
      var known := key in b.team || key in b.opponentTeam;
      var mine := GoesToOwnTeam(b, key, forceSelfTeam);
      // fails exactly on a new key for a full team
      && (r.Failure? <==> !known && |if mine then b.team else b.opponentTeam| >= TeamCapacity)
      // a known key changes nothing and yields its recorded pokemon
      && (known && r.Success? ==>
            && r.value.0 == b
            && r.value.1 == (if key in b.team then b.team[key] else b.opponentTeam[key]))
      // a new key lands on exactly one team, routed by role, with its species' data
      && (!known && r.Success? ==>
            && (key in r.value.0.team <==> mine)
            && (key in r.value.0.opponentTeam <==> !mine)
            && r.value.1.species == SpeciesOf(key, details)
            && r.value.1.data == Lookup(table, SpeciesOf(key, details)))
    // the pokemon returned is the one stored under the key
    ensures r.Success? ==>
      var key := Canonical(identifier);
      (key in r.value.0.team && r.value.0.team[key] == r.value.1) ||
      (key !in r.value.0.team && key in r.value.0.opponentTeam && r.value.0.opponentTeam[key] == r.value.1)
    // no other key is added, removed or changed, and nothing else moves
    ensures r.Success? ==>
      var key := Canonical(identifier);
      && r.value.0.team.Keys <= b.team.Keys + {key}
      && r.value.0.opponentTeam.Keys <= b.opponentTeam.Keys + {key}
      && (forall k :: k in b.team ==> k in r.value.0.team && r.value.0.team[k] == b.team[k])
      && (forall k :: k in b.opponentTeam ==> k in r.value.0.opponentTeam && r.value.0.opponentTeam[k] == b.opponentTeam[k])
      && SameButTeams(b, r.value.0)
    ensures Valid(b) && r.Success? ==> Valid(r.value.0)
  {
    if !Readable(identifier) then Failure(MalformedIdentifier(identifier))
    else
      var key := Canonical(identifier);
      if key in b.team then Success((b, b.team[key]))
      else if key in b.opponentTeam then Success((b, b.opponentTeam[key]))
      else
        var mine := GoesToOwnTeam(b, key, forceSelfTeam);
        var team := if mine then b.team else b.opponentTeam;
        if |team| >= TeamCapacity then Failure(TeamFull(key))
        else
          var species := SpeciesOf(key, details);
          var mon := Pokemon(species, Lookup(table, species));
          if mine then Success((b.(team := b.team[key := mon]), mon))
          else Success((b.(opponentTeam := b.opponentTeam[key := mon]), mon))
  }

  /** Resolving the same identifier again yields the same pokemon and leaves
      the battle as the first resolution left it, whatever the options. */
  lemma GetPokemonStable(b: Battle, table: SpeciesTable, identifier: string, forceSelfTeam: bool, details: string,
                         forceAgain: bool, detailsAgain: string)
    requires GetPokemon(b, table, identifier, forceSelfTeam, details).Success?
    ensures
      var (b1, mon) := GetPokemon(b, table, identifier, forceSelfTeam, details).value;
      GetPokemon(b1, table, identifier, forceAgain, detailsAgain) == Success((b1, mon))
  {
  }

  /** On a full team a new name is rejected, whatever the name. */
  lemma FullTeamRejectsNewName(b: Battle, table: SpeciesTable, role: string, name: string, details: string)
    requires |role| == 2 && b.playerRole == Some(role)
    requires |b.team| == TeamCapacity
    requires Key(role, name) !in b.team && Key(role, name) !in b.opponentTeam
    ensures GetPokemon(b, table, Key(role, name), false, details) == Failure(TeamFull(Key(role, name)))
  {
    SlotQualifiedSameKey(role, 'a', name);
  }

  /** The resolver's routing, in the order the battle tests exercise it:
      before any role is known a forced resolution lands on the own team;
      once the role is set, a slot-qualified identifier of the own role is
      stored under its slot-free key on the own team, and an identifier of
      the other role lands on the opponent's team only. */
  lemma ResolverRouting(table: SpeciesTable, own: string, other: string, slot: char,
                        forced: string, active: string, foe: string, details: string)
    requires |own| == 2 && |other| == 2 && own != other && slot != ' '
    ensures
      var r1 := GetPokemon(NewBattle(), table, Key(own, forced), true, "");
      && r1.Success? && Key(own, forced) in r1.value.0.team
      && var b1 := r1.value.0.(playerRole := Some(own));
      var r2 := GetPokemon(b1, table, own + [slot] + ": " + active, false, "");
      && r2.Success? && Key(own, active) in r2.value.0.team
      && var r3 := GetPokemon(r2.value.0, table, Key(other, foe), false, details);
      && r3.Success? && Key(other, foe) in r3.value.0.opponentTeam && Key(other, foe) !in r3.value.0.team
  {
    SlotQualifiedSameKey(own, slot, forced);
    SlotQualifiedSameKey(own, slot, active);
    SlotQualifiedSameKey(other, slot, foe);
    var r1 := GetPokemon(NewBattle(), table, Key(own, forced), true, "");
    var b1 := r1.value.0.(playerRole := Some(own));
    assert b1.team.Keys <= {Key(own, forced)} && b1.opponentTeam == map[];
    var r2 := GetPokemon(b1, table, own + [slot] + ": " + active, false, "");
    var b2 := r2.value.0;
    assert b2.team.Keys <= {Key(own, forced), Key(own, active)} && b2.opponentTeam == map[];
    assert Key(other, foe)[..2] == other;
    assert Key(own, forced)[..2] == own && Key(own, active)[..2] == own;
    assert Key(other, foe) !in b2.team;
  }

  // ------------------------------------------------------- side conditions

  /** `side[:2] == player_role`: a side message concerns the client's own side. */
  predicate IsOwnSide(b: Battle, side: string) {
    b.playerRole == Some(if |side| >= 2 then side[..2] else side)
  }

  function ConditionsOf(b: Battle, side: string): set<string> {
    if IsOwnSide(b, side) then b.sideConditions else b.opponentSideConditions
  }

  function WithConditions(b: Battle, side: string, conditions: set<string>): Battle {
    if IsOwnSide(b, side) then b.(sideConditions := conditions) else b.(opponentSideConditions := conditions)
  }

  /** A side condition starts on the side the message names. */
  function SideStart(b: Battle, side: string, condition: string): (b': Battle)
    ensures IsOwnSide(b, side) ==>
      b'.sideConditions == b.sideConditions + {EnumName(condition)} && b'.opponentSideConditions == b.opponentSideConditions
    ensures !IsOwnSide(b, side) ==>
      b'.opponentSideConditions == b.opponentSideConditions + {EnumName(condition)} && b'.sideConditions == b.sideConditions
    ensures b'.(sideConditions := b.sideConditions, opponentSideConditions := b.opponentSideConditions) == b
  {
    WithConditions(b, side, ConditionsOf(b, side) + {EnumName(condition)})
  }

  /** A side condition ends; ending one that is not active is an error. */
  function SideEnd(b: Battle, side: string, condition: string): (r: Result<Battle, BattleError>)
    ensures r.Failure? <==> EnumName(condition) !in ConditionsOf(b, side)
    ensures r.Success? && IsOwnSide(b, side) ==>
      r.value.sideConditions == b.sideConditions - {EnumName(condition)} &&
      r.value.opponentSideConditions == b.opponentSideConditions
    ensures r.Success? && !IsOwnSide(b, side) ==>
      r.value.opponentSideConditions == b.opponentSideConditions - {EnumName(condition)} &&
      r.value.sideConditions == b.sideConditions
    ensures r.Success? ==>
      r.value.(sideConditions := b.sideConditions, opponentSideConditions := b.opponentSideConditions) == b
  {
    var name := EnumName(condition);
    if name !in ConditionsOf(b, side) then Failure(ConditionNotActive(name))
    else Success(WithConditions(b, side, ConditionsOf(b, side) - {name}))
  }

  /** Starting an inactive side condition and ending it restores the battle;
      ending it a second time is an error. */
  lemma SideStartEndRoundTrip(b: Battle, side: string, condition: string)
    requires EnumName(condition) !in ConditionsOf(b, side)
    ensures SideEnd(SideStart(b, side, condition), side, condition) == Success(b)
    ensures SideEnd(b, side, condition).Failure?
  {
    var name := EnumName(condition);
    assert ConditionsOf(b, side) + {name} - {name} == ConditionsOf(b, side);
  }

  // ------------------------------------------------------ field conditions

  /** A field condition starts: its enum name joins the shared field set. */
  function FieldStart(b: Battle, name: string): (b': Battle)
    ensures EnumName(name) in b'.fields
    ensures b'.fields - {EnumName(name)} == b.fields - {EnumName(name)}
    ensures b'.(fields := b.fields) == b
  {
    b.(fields := b.fields + {EnumName(name)})
  }

  /** A field condition ends; a field that is not active, which includes a name
      that was never started, is an error. */
  function FieldEnd(b: Battle, name: string): (r: Result<Battle, BattleError>)
    ensures r.Failure? <==> EnumName(name) !in b.fields
    ensures r.Success? ==> EnumName(name) !in r.value.fields
    ensures r.Success? ==> r.value.fields + {EnumName(name)} == b.fields
    ensures r.Success? ==> r.value.(fields := b.fields) == b
  {
    var field := EnumName(name);
    if field !in b.fields then Failure(ConditionNotActive(field))
    else Success(b.(fields := b.fields - {field}))
  }

  /** Starting an inactive field and ending it restores the battle; ending it
      again is an error. */
  lemma FieldStartEndRoundTrip(b: Battle, name: string)
    requires EnumName(name) !in b.fields
    ensures FieldEnd(FieldStart(b, name), name) == Success(b)
    ensures FieldEnd(b, name).Failure?
  {
    var field := EnumName(name);
    assert b.fields + {field} - {field} == b.fields;
  }

  // ----------------------------------------------------------------- weather

  /** The weather slot: "none" clears it, any other name replaces whatever
      weather was there. */
  function SetWeather(b: Battle, name: string): (b': Battle)
    ensures name == "none" <==> b'.weather.None?
    ensures b'.weather.Some? ==> b'.weather.value == EnumName(name)
    ensures b'.(weather := b.weather) == b
  {
    b.(weather := if name == "none" then None else Some(EnumName(name)))
  }

  /** Weather does not stack: only the last setting counts. */
  lemma WeatherLastWins(b: Battle, first: string, second: string)
    ensures SetWeather(SetWeather(b, first), second) == SetWeather(b, second)
  {
  }

  /** Records the team size the simulator announces for a role. */
  function RecordTeamSize(b: Battle, role: string, size: nat): (b': Battle)
    ensures role in b'.teamSize && b'.teamSize[role] == size
    ensures forall r :: r in b.teamSize && r != role ==> r in b'.teamSize && b'.teamSize[r] == b.teamSize[r]
    ensures b'.(teamSize := b.teamSize) == b
  {
    b.(teamSize := b.teamSize[role := size])
  }
}
