/** The pokedex inheritance script: the dex of generation g is rebuilt from the
    dex of generation g + 1 and generation g's file of changes, for g from 7
    down to 1. Changes entries marked `inherit: true` take their missing fields
    from the newer generation; species numbered above the generation's last
    pokedex number are not carried back. File reading and writing and JSON
    text are outside the model: dexes are maps from species key to entry. */
module Pokedex {

  import opened Results

  /** A JSON value of a dex entry. The merge only ever inspects `num` and
      `inherit`; lists, objects and floats travel as opaque text. */
  datatype Json = JInt(i: int) | JBool(b: bool) | JStr(s: string) | JNull | JOther(text: string)

  /** One species' record: field name to value. */
  type Entry = map<string, Json>

  /** A whole pokedex: species key to record. */
  type Dex = map<string, Entry>

  datatype PokedexError =
    | MissingNum            // a newer entry has no comparable `num` (KeyError / TypeError)
    | MissingChanges(gen: int)  // generation gen's changes file cannot be opened
    | MalformedChanges          // a changes file's text is no JSON dex

  /** Last national pokedex number introduced by each generation 1..7. */
  const MaxMonIndex: map<int, int> :=
    map[1 := 151, 2 := 251, 3 := 386, 4 := 493, 5 := 649, 6 := 721, 7 := 809]

  const NumKey := "num"
  const InheritKey := "inherit"

  /** Generations 1..7 have a cap, and later generations have strictly larger caps. */
  lemma MaxMonIndexStrictlyIncreasing()
    ensures forall g :: g in MaxMonIndex <==> 1 <= g <= 7
    ensures forall g :: 1 <= g < 7 ==> MaxMonIndex[g] < MaxMonIndex[g + 1]
  {
    assert forall g :: 1 <= g <= 7 ==> g in MaxMonIndex;
    assert forall g :: g in MaxMonIndex ==> 1 <= g <= 7;
  }

  lemma {:induction false} MaxMonIndexMonotone(g: int, h: int)
    requires 1 <= g <= h <= 7
    ensures MaxMonIndex[g] <= MaxMonIndex[h]
    decreases h - g
  {
    MaxMonIndexStrictlyIncreasing();
    if g < h {
      MaxMonIndexMonotone(g + 1, h);
    }
  }

  /** The entry's `num` as Python compares it with an int: an integer, or a
      boolean counting as 0 or 1; anything else (or no `num`) cannot be compared. */
  function Num(e: Entry): Option<int> {
    if NumKey !in e then None
    else match e[NumKey]
      case JInt(i) => Some(i)
      case JBool(b) => Some(if b then 1 else 0)
      case _ => None
  }

  /** `"inherit" in e and e["inherit"] == True`; Python's `1 == True` holds too. */
  predicate MarkedInherit(e: Entry) {
    InheritKey in e && (e[InheritKey] == JBool(true) || e[InheritKey] == JInt(1))
  }

  /** `{**newer, **older}` without its `inherit` key: fields the older entry has
      win, the newer entry fills in the rest. */
  function InheritMerge(newer: Entry, older: Entry): (r: Entry)
    ensures r.Keys == (newer.Keys + older.Keys) - {InheritKey}
    ensures forall f :: f in older && f != InheritKey ==> r[f] == older[f]
    ensures forall f :: f in newer && f !in older && f != InheritKey ==> r[f] == newer[f]
  {
    (newer + older) - {InheritKey}
  }

  /** The newer entry is numbered within the generation's cap. */
  predicate InRange(cap: int, newer: Dex, mon: string) {
    mon in newer && Num(newer[mon]).Some? && Num(newer[mon]).value <= cap
  }

  predicate AllNumbered(newer: Dex) {
    forall mon :: mon in newer ==> Num(newer[mon]).Some?
  }

  function InRangeKeys(cap: int, newer: Dex, among: set<string>): set<string> {
    set mon | mon in among && InRange(cap, newer, mon)
  }

  /** What one species becomes once the loop has visited it. */
  function MergedEntry(cap: int, newer: Dex, older: Dex, mon: string): Entry
    requires mon in older || InRange(cap, newer, mon)
  {
    if mon !in older then newer[mon]
    else if InRange(cap, newer, mon) && MarkedInherit(older[mon]) then InheritMerge(newer[mon], older[mon])
    else older[mon]
  }

  /** One generation's merge: every newer entry within the cap is copied in
      when missing and merged into an `inherit` entry; nothing else changes. */
  function MergeGeneration(cap: int, newer: Dex, older: Dex): (r: Result<Dex, PokedexError>)
    ensures r.Success? <==> AllNumbered(newer)
    ensures r.Success? ==> r.value.Keys == older.Keys + InRangeKeys(cap, newer, newer.Keys)
    // out-of-range newer species are neither added nor changed
    ensures r.Success? ==> forall mon :: mon in newer && !InRange(cap, newer, mon) ==>
      (mon in r.value <==> mon in older) && (mon in older ==> r.value[mon] == older[mon])
    // in-range species the older dex lacks are copied verbatim
    ensures r.Success? ==> forall mon :: InRange(cap, newer, mon) && mon !in older ==>
      r.value[mon] == newer[mon]
    // in-range `inherit` entries keep their fields, gain the missing ones, lose the marker
    ensures r.Success? ==> forall mon :: InRange(cap, newer, mon) && mon in older && MarkedInherit(older[mon]) ==>
      && r.value[mon].Keys == (newer[mon].Keys + older[mon].Keys) - {InheritKey}
      && (forall f :: f in older[mon] && f != InheritKey ==> r.value[mon][f] == older[mon][f])
      && (forall f :: f in newer[mon] && f !in older[mon] && f != InheritKey ==> r.value[mon][f] == newer[mon][f])
    // older entries without the marker are kept exactly
    ensures r.Success? ==> forall mon :: mon in older && !MarkedInherit(older[mon]) ==> r.value[mon] == older[mon]
    // older entries the loop never merges into, `inherit` marker included, are kept exactly
    ensures r.Success? ==> forall mon :: mon in older && !InRange(cap, newer, mon) ==> r.value[mon] == older[mon]
  {
    if !AllNumbered(newer) then Failure(MissingNum)
    else Success(map mon | mon in older.Keys + InRangeKeys(cap, newer, newer.Keys) :: MergedEntry(cap, newer, older, mon))
  }

  /** The script's loop over the newer dex, visiting species one at a time in
      whatever order the dictionary yields them and updating the older dex in place. */
  method MergeGenerationInPlace(cap: int, newer: Dex, older: Dex) returns (r: Result<Dex, PokedexError>)
    ensures r == MergeGeneration(cap, newer, older)
  {
    var oldGen := older;
    var todo := newer.Keys;
    while todo != {}
      invariant todo <= newer.Keys
      invariant forall mon :: mon in newer && mon !in todo ==> Num(newer[mon]).Some?
      invariant forall mon :: mon in oldGen <==> mon in older || (mon !in todo && InRange(cap, newer, mon))
      invariant forall mon :: mon in oldGen && mon in todo ==> oldGen[mon] == older[mon]
      invariant forall mon :: mon in oldGen && mon !in todo ==> oldGen[mon] == MergedEntry(cap, newer, older, mon)
      decreases todo
    {
      var mon :| mon in todo;
      todo := todo - {mon};
      var value := newer[mon];
      match Num(value) {
        case None =>
          assert !AllNumbered(newer);
          return Failure(MissingNum);
        case Some(num) =>
          if num <= cap {
            if mon !in oldGen {
              oldGen := oldGen[mon := value];
            } else if MarkedInherit(oldGen[mon]) {
              oldGen := oldGen[mon := InheritMerge(value, oldGen[mon])];
            }
          }
      }
    }
    VisitedAllIsMerge(cap, newer, older, oldGen);
    r := Success(oldGen);
  }

  /** Once every species has been visited, the updated dex is the merge. */
  lemma VisitedAllIsMerge(cap: int, newer: Dex, older: Dex, visited: Dex)
    requires AllNumbered(newer)
    requires forall mon :: mon in visited <==> mon in older || InRange(cap, newer, mon)
    requires forall mon :: mon in visited ==> visited[mon] == MergedEntry(cap, newer, older, mon)
    ensures MergeGeneration(cap, newer, older) == Success(visited)
  {
    var expected := map mon | mon in older.Keys + InRangeKeys(cap, newer, newer.Keys) :: MergedEntry(cap, newer, older, mon);
    assert visited.Keys == expected.Keys;
    assert forall mon :: mon in visited ==> visited[mon] == expected[mon];
    assert visited == expected;
  }

  /** Generation g's changes file: the bare marker `{` means "no changes". */
  datatype ChangesFile = BareMarker | Changes(dex: Dex)

  // ---------------------------------------------------- loading changes

  /** An open text file: its whole content and how far it has been read. */
  datatype TextFile = TextFile(content: string, position: nat)

  /** `f.read()`: the unread rest of the file; afterwards the file is at its end. */
  function ReadRest(f: TextFile): (r: (string, TextFile))
    ensures r.1.content == f.content && r.1.position >= |f.content|
    ensures f.position == 0 ==> r.0 == f.content
    ensures f.position >= |f.content| ==> r.0 == ""
  {
    if f.position >= |f.content| then ("", f)
    else (f.content[f.position..], f.(position := |f.content|))
  }

  /** The changes file as the script loads it: it reads the whole text to
      compare it with the marker, then hands the same file object to the
      JSON decoder, which reads from where the first read stopped. `decode`
      stands for the JSON decoder. */
  function LoadChangesAsWritten(f: TextFile, decode: string -> Option<Dex>): Result<ChangesFile, PokedexError> {
    var (text, afterRead) := ReadRest(f);
    if text == "{" then Success(BareMarker)
    else
      var (rest, _) := ReadRest(afterRead);
      match decode(rest)
      case Some(d) => Success(Changes(d))
      case None => Failure(MalformedChanges)
  }

  /** The empty text is no JSON document, so as written every changes file
      other than the bare marker fails to load, however well formed. */
  lemma LoadChangesAsWrittenRejectsChanges(content: string, decode: string -> Option<Dex>)
    requires decode("") == None
    requires content != "{"
    ensures LoadChangesAsWritten(TextFile(content, 0), decode) == Failure(MalformedChanges)
  {
    var first := ReadRest(TextFile(content, 0));
    assert ReadRest(first.1).0 == "";
  }

  /** The changes file as the script evidently means to load it: the marker
      text means "no changes", any other text is decoded as a whole. */
  function LoadChanges(content: string, decode: string -> Option<Dex>): (r: Result<ChangesFile, PokedexError>)
    ensures content == "{" ==> r == Success(BareMarker)
    ensures content != "{" ==> (r.Success? <==> decode(content).Some?)
    ensures content != "{" && r.Success? ==> r.value == Changes(decode(content).value)
  {
    if content == "{" then Success(BareMarker)
    else
      match decode(content)
      case Some(d) => Success(Changes(d))
      case None => Failure(MalformedChanges)
  }

  /** Loading then building: a well-formed changes file reaches the merge
      with exactly the dex its text encodes. */
  lemma LoadedChangesReachMerge(gen: int, newer: Dex, content: string, decode: string -> Option<Dex>)
    requires gen in MaxMonIndex
    requires content != "{" && decode(content).Some?
    ensures LoadChanges(content, decode).Success?
    ensures BuildGeneration(gen, newer, LoadChanges(content, decode).value)
      == MergeGeneration(MaxMonIndex[gen], newer, decode(content).value)
  {
  }

  /** One iteration of the script: a bare marker copies the newer dex as is,
      unfiltered; otherwise the changes are merged with the generation's cap. */
  function BuildGeneration(gen: int, newer: Dex, changes: ChangesFile): (r: Result<Dex, PokedexError>)
    requires gen in MaxMonIndex
    ensures changes.BareMarker? ==> r == Success(newer)
    ensures changes.Changes? ==> r == MergeGeneration(MaxMonIndex[gen], newer, changes.dex)
  {
    match changes
    case BareMarker => Success(newer)
    case Changes(older) => MergeGeneration(MaxMonIndex[gen], newer, older)
  }

  /** The dex the script writes for generation g (1..7), starting from the
      generation 8 dex; generation 8 itself is the input. */
  function Generation(g: int, gen8: Dex, changes: map<int, ChangesFile>): Result<Dex, PokedexError>
    requires 1 <= g <= 8
    decreases 8 - g
  {
    if g == 8 then Success(gen8)
    else
      var newer :- Generation(g + 1, gen8, changes);
      if g !in changes then Failure(MissingChanges(g))
      else BuildGeneration(g, newer, changes[g])
  }

  /** No generation's output loses a species its own changes file lists. */
  lemma GenerationKeepsChangedKeys(g: int, gen8: Dex, changes: map<int, ChangesFile>)
    requires 1 <= g <= 7
    requires Generation(g, gen8, changes).Success?
    requires g in changes && changes[g].Changes?
    ensures changes[g].dex.Keys <= Generation(g, gen8, changes).value.Keys
  {
  }

  /** A generation-8 species that no changes file down to generation g
      mentions, and whose number is within generation g's cap, reaches
      generation g's dex unchanged. */
  lemma {:induction false} UntouchedEntryReachesGeneration(g: int, gen8: Dex, changes: map<int, ChangesFile>, mon: string)
    requires 1 <= g <= 8
    requires Generation(g, gen8, changes).Success?
    requires mon in gen8 && Num(gen8[mon]).Some?
    requires g < 8 ==> Num(gen8[mon]).value <= MaxMonIndex[g]
    requires forall h :: g <= h < 8 && h in changes && changes[h].Changes? ==> mon !in changes[h].dex
    ensures mon in Generation(g, gen8, changes).value
    ensures Generation(g, gen8, changes).value[mon] == gen8[mon]
    decreases 8 - g
  {
    if g < 8 {
      MaxMonIndexStrictlyIncreasing();
      if g + 1 < 8 {
        MaxMonIndexMonotone(g, g + 1);
      }
      UntouchedEntryReachesGeneration(g + 1, gen8, changes, mon);
      var newer := Generation(g + 1, gen8, changes).value;
      assert InRange(MaxMonIndex[g], newer, mon);
    }
  }
}
