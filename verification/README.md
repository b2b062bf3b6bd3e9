# poke-env core, modelled in Dafny

A model of four pieces of poke-env, a Python client that plays Pokémon
Showdown battles, together with proofs of the properties these pieces promise:

1. **The pokedex inheritance script.** Generation g's dex is rebuilt from
   generation g + 1's dex and generation g's file of changes, going from 7
   down to 1. Species numbered above a generation's last pokedex number are
   skipped. Species the changes lack are copied in. Entries marked
   `inherit: true` are completed from the newer entry, and the marker is
   dropped. This is in `pokedex.dfy`.
2. **Battle state.** This covers:
   - the pokemon resolver: `pXa: name` is stored under the key `pX: name`, routed
     to the client's own team or the opponent's, with a capacity of six;
   - side conditions for each side;
   - field conditions, where ending a field that is not active is an error;
   - the single weather slot;
   - the dispatcher that routes a protocol line to its handler.

   This is in `identifiers.dfy`, `battle.dfy` and `messages.dfy`.
3. **Orders.** This covers:
   - the `/choose …` message format and its parser;
   - the default order;
   - the random team-preview order `/team <digits>`;
   - the random player of a double battle, whose targets depend on which
     positions are occupied and which lets at most one slot dynamax per turn.

   This is in `orders.dfy`, `moves.dfy` and `doubles.dfy`.
4. **The max-base-power baseline player.** It sends the default order when
   nothing is legal, otherwise a switch when no move is usable, and otherwise
   the move of greatest base power. This is in `baselines.dfy`.

`results.dfy` holds `Option`/`Result`; `text.dfy` holds the protocol's string
conventions (id form, enum form, decimal numbers, space-separated words).

Everything is modelled over immutable values: pure functions, plus three
methods (`Pokedex.MergeGenerationInPlace`, `Baselines.BestMoveIndex`,
`Baselines.ChooseMaxBasePower`) whose loops are proved equal to a pure
specification. An
operation that the program would abort with an exception returns `Failure`,
and the caller keeps its previous state. Randomness (`random.choice`,
`random.shuffle`) is a `pick` parameter, so each property holds for every
possible random draw. JSON decoding is a `decode` parameter. File I/O and
the static species and move data are also outside the model.

The model follows the unit tests that exercise the battle, player and
double-battle classes. Where the tests are silent, it follows how the library
behaves:

- an identifier whose character at index 3 is not a space loses its slot
  letter;
- the double battle target table;
- the order message format.

Two further behaviours are choices of this model, not the library's:

- Side conditions, field conditions and weather accept any name and keep it
  in its enum form. Only ending a condition that is not active fails, which
  covers a field name that was never started. The library instead maps a name
  it does not know to an unknown member, or fails on the lookup.
- A team's capacity is the fixed six of the game. A `teamsize` line records
  the announced size for its role, and the model does not read it back.

The two slots of a double battle could have been given choices that are
independent of each other, since both halves are submitted together. The test
at `unit_tests/player/test_player_misc.py:113-120` instead asserts that the
choices are made in sequence: once slot 1 has picked dynamax, slot 2 is
offered no dynamax choice. The model follows the test.

## Model

| member | source | states |
|---|---|---|
| Pokedex.MaxMonIndexStrictlyIncreasing | scripts/update_pokedex_from_following_gen.py:14 | The cap table covers exactly generations 1..7, and each generation's last pokedex number is below the next generation's |
| Pokedex.MaxMonIndexMonotone | scripts/update_pokedex_from_following_gen.py:14 | For generations g <= h, generation g's cap is at most generation h's |
| Pokedex.InheritMerge | scripts/update_pokedex_from_following_gen.py:38-39 | `{**newer, **older}` without `inherit`: the keys are the union minus `inherit`, older fields keep their values, and missing fields come from the newer entry |
| Pokedex.MergeGeneration | scripts/update_pokedex_from_following_gen.py:31-39 | Fails exactly when a newer entry has no comparable `num`. On success:<br>• the keys are the older keys plus the in-range newer keys<br>• out-of-range species are neither added nor changed<br>• missing in-range species are copied verbatim<br>• `inherit` entries keep their fields, gain the missing ones and lose the marker<br>• unmarked older entries are unchanged<br>• older entries the loop does not merge into, `inherit` marker included, are unchanged |
| Pokedex.MergeGenerationInPlace | scripts/update_pokedex_from_following_gen.py:31-39 | The script's in-place loop, visiting species in any order, computes exactly the merge above |
| Pokedex.LoadChangesAsWrittenRejectsChanges | scripts/update_pokedex_from_following_gen.py:21-24 | As written, every changes file other than the bare `{` marker fails to load, because the decoder sees the empty rest of the file |
| Pokedex.LoadChanges | scripts/update_pokedex_from_following_gen.py:21-29 | The marker text means "no changes"; any other text loads as exactly the dex it encodes, or fails when it encodes none |
| Pokedex.LoadedChangesReachMerge | scripts/update_pokedex_from_following_gen.py:21-39 | A well-formed changes file reaches the merge with the dex its text encodes |
| Pokedex.BuildGeneration | scripts/update_pokedex_from_following_gen.py:22-39 | A bare marker yields the newer dex unfiltered; otherwise the generation's cap is used for the merge |
| Pokedex.GenerationKeepsChangedKeys | scripts/update_pokedex_from_following_gen.py:16-39 | No generation's output loses a species that its own changes list |
| Pokedex.UntouchedEntryReachesGeneration | scripts/update_pokedex_from_following_gen.py:16-36 | A generation-8 species that no changes file mentions and that is within generation g's cap reaches generation g's dex unchanged |
| Identifiers.SlotQualifiedSameKey | unit_tests/environment/test_battle.py:27-28 | `pXa: name` and `pX: name` denote the same key, and that key gives back its role and name |
| Battles.NewBattle | unit_tests/environment/test_battle.py:106-110 | A new battle has no role, empty teams, no side or field conditions and no weather |
| Battles.GetPokemon | unit_tests/environment/test_battle.py:13-53 | Fails exactly on a new key for a full team. A known key changes nothing and yields its pokemon. A new key lands on exactly one team, routed by the forced flag or the key's role, with the species from the details or the name and that species' data. No other entry is added, removed or changed |
| Battles.GetPokemonStable | unit_tests/environment/test_battle.py:27-33 | Resolving an identifier again yields the same pokemon and changes nothing, whatever the options |
| Battles.FullTeamRejectsNewName | unit_tests/environment/test_battle.py:48-53 | With six pokemon on the own team, a new own-role name fails with TeamFull, and the caller's team is unchanged |
| Battles.ResolverRouting | unit_tests/environment/test_battle.py:19-31 | Before a role is known, a forced resolution goes to the own team. With the role set, `pXa: name` is stored under `pX: name` on the own team, and the other role's pokemon go to the opponent's team only |
| Battles.SideStart | unit_tests/environment/test_battle.py:63-67 | A condition of the own role is added to the own side's set and one of the other role to the opponent's; nothing else changes |
| Battles.SideEnd | unit_tests/environment/test_battle.py:69-78 | Fails exactly when the condition is not active on that side; otherwise removes it from that side only |
| Battles.SideStartEndRoundTrip | unit_tests/environment/test_battle.py:63-78 | Starting an inactive condition and ending it restores the battle; ending it again fails |
| Battles.FieldStart | unit_tests/environment/test_battle.py:87-91 | The started field is active afterwards, and no other field and nothing else in the battle changes |
| Battles.FieldEnd | unit_tests/environment/test_battle.py:93-103 | Fails exactly when the field is not active; otherwise the field is gone, the other fields stay and nothing else changes |
| Battles.FieldStartEndRoundTrip | unit_tests/environment/test_battle.py:87-103 | Starting an inactive field and ending it restores the battle; ending it again fails |
| Battles.SetWeather | unit_tests/environment/test_battle.py:110-119 | `none` clears the weather, and any other name replaces it with that name's enum form; nothing else changes |
| Battles.WeatherLastWins | unit_tests/environment/test_battle.py:112-116 | Two weather settings in a row leave only the second |
| Battles.RecordTeamSize | unit_tests/environment/test_battle.py:24-25 | `teamsize` records the size for its role, keeps the other roles' sizes and changes nothing else |
| Text.EnumNameIdempotent | unit_tests/environment/test_battle.py:87-88 | Normalising a condition name that is already in enum form changes nothing |
| Text.ToIdIdempotent | unit_tests/environment/test_battle.py:30-33 | The id form of an id is itself |
| Text.ParseNatRoundTrip | unit_tests/environment/test_battle.py:24-25 | A team size written in decimal reads back as the same number |
| Messages.ParseMessage | unit_tests/environment/test_battle.py:87-118 | Unhandled kinds are ignored, and too few tokens are an error. A `teamsize` line yields its role and the decimal value of its size, and fails when the size is not decimal |
| Messages.Ingest | unit_tests/environment/test_battle.py:87-118 | A line never touches the teams, keeps the team capacity, and an unhandled kind leaves the battle as is |
| Messages.DispatchRoutes | unit_tests/environment/test_battle.py:87-118 | `teamsize`, `-fieldstart`, `-fieldend`, `-weather`, `-sidestart` and `-sideend` each reach their own handler with the line's arguments |
| Messages.FieldScenario | unit_tests/environment/test_battle.py:81-103 | Two fields started and ended one at a time give the sets the test expects; ending an ended field, or one never started, fails |
| Messages.FieldLinesScenario | unit_tests/environment/test_battle.py:87-103 | The test's four field lines, fed as one stream, leave no field active, and a fifth line ending the first field again aborts the stream |
| Messages.WeatherScenario | unit_tests/environment/test_battle.py:106-119 | Two named weathers then `none` give that weather, then the other, then no weather |
| Messages.SideScenario | unit_tests/environment/test_battle.py:56-78 | A condition started on both sides lands in both sets, ending it on both empties them, and ending it again fails on either side |
| Orders.ChooseDefaultMove | unit_tests/player/test_player_misc.py:18-19 | The default order is `/choose default`, and it reads back as the default order |
| Orders.ParseOrderRoundTrip | unit_tests/player/test_baselines.py:24-36 | Every order whose move id or species is a single word reads back from its message |
| Orders.OrderMessageInjective | unit_tests/player/test_baselines.py:24-36 | Distinct well-formed orders have distinct messages |
| Orders.ShufflePermutes | unit_tests/player/test_player_misc.py:29-33 | Whatever the random picks, the shuffle is a permutation of its input |
| Orders.ShuffleReachesEveryPermutation | unit_tests/player/test_player_misc.py:29-33 | Every permutation is the outcome of some picks |
| Orders.PermutationOfPositions | unit_tests/player/test_player_misc.py:31-33 | A permutation of 1..n holds each of 1..n exactly once and nothing else |
| Orders.DigitsOfPermutation | unit_tests/player/test_player_misc.py:31-33 | Written out, a permutation of 1..n (n <= 9) names each digit 1..n exactly once |
| Orders.TeamPreviewIsPermutation | unit_tests/player/test_player_misc.py:22-67 | For a team of n <= 9, the preview order is `/team ` followed by each digit 1..n exactly once, for every random draw |
| Baselines.ChooseRandomSingles | unit_tests/player/test_baselines.py:22-27 | The default order exactly when nothing is legal; otherwise some legal order |
| Baselines.NoMovesOnlySwitches | unit_tests/player/test_baselines.py:26-27 | Without usable moves, the legal orders are exactly the switches |
| Baselines.RandomWithoutMoves | unit_tests/player/test_baselines.py:22-27 | Without moves, the result is the default order when there is no switch, and otherwise a switch to an available pokemon |
| Baselines.FirstMaxUnique | unit_tests/player/test_baselines.py:32-36 | Only one index holds the first move of greatest base power |
| Baselines.BestMoveIndex | unit_tests/player/test_baselines.py:32-36 | The scan finds the first move of greatest base power, which is the one Python's `max` returns |
| Baselines.ChooseMaxBasePower | unit_tests/player/test_baselines.py:22-36 | With usable moves, the result is the plain order of the first move of greatest base power, preferred over any switch; without them, it is the random player's choice |
| Baselines.SinglesMessageFormats | unit_tests/player/test_baselines.py:27-30 | Plain move and switch orders are written `/choose move <id>` and `/choose switch <species>` |
| Baselines.MaxBasePowerScenario | unit_tests/player/test_baselines.py:22-36 | The test's sequence: the default order, then the lone switch, then each newly added, strictly stronger move |
| Doubles.KeepOccupied | unit_tests/player/test_player_misc.py:100-104 | A target survives exactly when it is "no target" or its position holds a pokemon |
| Doubles.MoveCount | unit_tests/player/test_player_misc.py:100-102 | With distinct ids, a move is offered once for each target its rule allows |
| Doubles.DynamaxCountOneFoe | unit_tests/player/test_player_misc.py:100-104 | With one foe on the field, there is exactly one dynamax choice per move, and none without dynamax |
| Doubles.NoChoiceAimsAtEmpty | unit_tests/player/test_player_misc.py:100-103 | No choice aims at an unoccupied position |
| Doubles.AllowedTargetIsChosen | unit_tests/player/test_player_misc.py:134-137 | A target some move allows is aimed at by some choice |
| Doubles.TargetCountsOneFoe | unit_tests/player/test_player_misc.py:100-104 | With one foe, a move has one or two plain targets and exactly one max-move target |
| Doubles.TargetCountsTwoFoes | unit_tests/player/test_player_misc.py:122-137 | With two foes, every move has a target, and a foe-targeting move or an attacking max move can aim at the second foe |
| Doubles.OneFoeChoiceCounts | unit_tests/player/test_player_misc.py:94-104 | With one foe and dynamax open:<br>• each move is offered two or three times<br>• no choice aims at position 2<br>• there are as many dynamax choices as moves |
| Doubles.TwoFoesChoiceCounts | unit_tests/player/test_player_misc.py:122-137 | With two foes, each move is offered more than once, and a move able to hit a single foe makes some choice aim at position 2 |
| Doubles.ClosedDynamaxOffersNone | unit_tests/player/test_player_misc.py:113-120 | A slot whose dynamax is closed is offered no dynamax choice |
| Doubles.PickFrom | unit_tests/player/test_player_misc.py:97-98 | The random pick is some member of the choices, and is absent exactly when there are none |
| Doubles.ChooseRandomDoubles | unit_tests/player/test_player_misc.py:113-120 | Each slot's order is one of its choices and is present exactly when it has some. Slot 2's choices are computed after slot 1's pick |
| Doubles.DynamaxAtMostOnce | unit_tests/player/test_player_misc.py:113-120 | At most one slot dynamaxes per turn. Once slot 1 picked dynamax, slot 2 is offered none; otherwise slot 2 is offered exactly its full choices |

## Left out

- File reading and writing and JSON text in the pokedex script: dexes are maps, JSON decoding is a parameter, and writing the output is not modelled.
- Pokedex.Num: a `num` that is a float is treated as not comparable, where Python would compare it with the cap. Dex numbers are integers.
- Pokedex.MarkedInherit: floats are not modelled, so an `inherit` value of `1.0`, which Python's `== True` accepts, does not count as the marker. Only `true` and the integer `1` do.
- Text.ToId: only ASCII letters and digits are kept and case-mapped, where Python's `isalnum()` and `lower()` work on all of Unicode. A name such as "Flabébé" keeps its "é" in Python but loses it here, which changes the key it is stored under.
- Text.EnumName: upper-casing is ASCII only, for the same reason.
- Battles.GetPokemon: the species data lookup is a read-only map parameter. Types and base stats are not computed.
- Battles.GetPokemon: the library bounds a team by the size announced for the identifier's role, and does not bound it at all before any size is announced. The model ignores the announced size and always uses the capacity six.
- Battles.SideStart, Battles.FieldStart, Battles.SetWeather: a name the library does not know is not mapped to its unknown member; the model keeps the name's own enum form.
- Messages.ParseMessage: only the kinds with handlers above are modelled. Every other kind is ignored, and the `teamsize` argument is read as decimal text.
- Turn flow, requests, switches, HP, status, boosts and every other protocol handler: outside the four pieces.
- Baselines.ChooseRandomSingles: z-move variants are not offered, because whether a move has a z-move depends on the held item, which is outside the model.
- Doubles.ChooseRandomDoubles: mega and z-move variants, forced switches, `struggle`/`recharge` and a pokemon already dynamaxed are not modelled. A slot with no legal choice contributes no order.
- The text of the joined two-slot order (`/choose <first>, <second>`) is not modelled, because nothing asserts it.
- `_estimate_matchup` of the heuristic player: it uses floating-point type multipliers.
- The gymnasium single-agent wrapper and the asynchronous queue and render code of the reinforcement-learning environment: adapters and I/O.
- Orders.TeamPreviewIsPermutation: states the digit form for teams of at most nine, the largest team the game allows being six.

## Findings

| source | as written | input that shows it | evidently intended | confidence | as-written member | corrected member |
|---|---|---|---|---|---|---|
| scripts/update_pokedex_from_following_gen.py:21-24 | `file.read()` consumes the whole changes file for the marker test, then `json.load(file)` decodes the empty remainder | any changes file whose text is not exactly `{`, such as `{"bulbasaur": {"num": 1}}` | decode the text already read (`json.loads`) | high, not executed | Pokedex.LoadChangesAsWrittenRejectsChanges | Pokedex.LoadChanges |
