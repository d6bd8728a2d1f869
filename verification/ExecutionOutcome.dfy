/**
  What normalising and merging an execution declaration (src/simple_ar/app/research_execution.py) gives, key by
  key, stated from the keys of the declaration and of the proposal alone.
*/
module ExecutionOutcome {
  import opened Wrappers
  import opened Texts
  import opened SeedArgv
  import opened ExecutionConfig

  predicate Holds(config: Config, key: Key, value: Option<Value>) {
    match value
    case None => key !in config
    case Some(v) => key in config && config[key] == v
  }

  /** The declaration's own value, or none. */
  function Own(config: Config, key: Key): Option<Value> {
    if key !in config then None else Some(config[key])
  }

  lemma GetIsOwn(config: Config, key: Key)
    ensures Get(config, key) == Own(config, key)
    ensures Holds(config, key, Get(config, key))
  {
  }

  // ---------------------------------------------------------------------------------------------
  // Which declarations are accepted
  // ---------------------------------------------------------------------------------------------

  /** A non-empty list of different integers. */
  predicate SeedsListed(value: Value) {
    && value.List? && |value.items| > 0 && (forall i :: 0 <= i < |value.items| ==> value.items[i].Number?)
    && forall i, j :: 0 <= i < j < |value.items| ==> value.items[i].n != value.items[j].n
  }

  /** A non-empty list of non-empty words. */
  predicate CommandListed(value: Value) {
    value.List? && |value.items| > 0 && forall item <- value.items :: item.Str_? && |item.text| > 0
  }

  predicate PairListed(row: Value) {
    && row.Dict? && |row.entries.Keys| == 3
    && SeedKey in row.entries && BaselineCommand in row.entries && CandidateCommand in row.entries
    && row.entries[SeedKey].Number?
    && CommandListed(row.entries[BaselineCommand]) && CommandListed(row.entries[CandidateCommand])
  }

  /** Rows of the three keys, with different seeds. */
  predicate PairsListed(value: Value) {
    && value.List? && (forall i :: 0 <= i < |value.items| ==> PairListed(value.items[i]))
    && forall i, j :: 0 <= i < j < |value.items| ==> value.items[i].entries[SeedKey] != value.items[j].entries[SeedKey]
  }

  /** Some character is no white space. */
  predicate Visible(text: string) {
    exists c <- text :: !IsSpace(c)
  }

  predicate RefsListed(value: Value) {
    match value
    case Str_(text) => Visible(text)
    case List(items) => |items| > 0 && forall item <- items :: item.Str_? && Visible(item.text)
    case _ => false
  }

  /** Explicit pairs are given. */
  predicate Explicit(config: Config) {
    Pairs in config && config[Pairs].List? && |config[Pairs].items| > 0
  }

  /** The seeds the protocol lists among its comparison conditions. */
  predicate Named(config: Config, seeds: Value) {
    && Protocol in config && config[Protocol].Dict? && ComparisonConditions in config[Protocol].entries
    && config[Protocol].entries[ComparisonConditions].Dict?
    && SeedsKey in config[Protocol].entries[ComparisonConditions].entries
    && config[Protocol].entries[ComparisonConditions].entries[SeedsKey] == seeds
  }

  /** The conditions a declaration must meet before anything is expanded. */
  ghost predicate WellFormed(config: Config) {
    && (Pairs in config ==> PairsListed(config[Pairs]))
    && (Explicit(config) ==> SeedsKey !in config && SeedCount !in config && SeedFlag !in config)
    && (SeedsKey in config ==> SeedsListed(config[SeedsKey]))
    && (forall seeds :: Named(config, seeds) ==> SeedsListed(seeds))
    && (SeedCount in config ==> config[SeedCount].Number? && config[SeedCount].n > 0)
    && (SeedFlag in config ==> config[SeedFlag].Str_? && Visible(config[SeedFlag].text))
    && (BaselineRef in config ==> RefsListed(config[BaselineRef]))
    && (BaselinePolicy in config ==>
          && config[BaselinePolicy].Str_?
          && var policy := Lower(Strip(config[BaselinePolicy].text));
             policy == "run" || policy == "skip" || policy == "reuse")
  }

  lemma VisibleIsNotBlank(text: string)
    ensures Visible(text) <==> !Blank(text)
  {
  }

  lemma SeedsListedIs(value: Value)
    ensures SeedsListed(value) <==> SeedList(value).Ok?
    ensures SeedsListed(value) ==>
      && |SeedList(value).value| == |value.items|
      && forall i :: 0 <= i < |value.items| ==> SeedList(value).value[i] == value.items[i].n
  {
    if value.List? && forall i :: 0 <= i < |value.items| ==> value.items[i].Number? {
      assert forall i :: 0 <= i < |value.items| ==> Ints(value.items)[i] == value.items[i].n;
    }
  }

  lemma CommandListedIs(value: Value)
    ensures CommandListed(value) <==> IsArgvValue(value)
  {
  }

  lemma PairListedIs(row: Value)
    ensures PairListed(row) <==> IsRow(row)
  {
    if row.Dict? {
      var keys, three := row.entries.Keys, {SeedKey, BaselineCommand, CandidateCommand};
      if three <= keys && |keys| == 3 {
        SubsetIsAll(three, keys);
      }
      if IsRow(row) { assert |keys| == |three| == 3; }
      if SeedKey in keys && BaselineCommand in keys && CandidateCommand in keys {
        CommandListedIs(row.entries[BaselineCommand]);
        CommandListedIs(row.entries[CandidateCommand]);
      }
    }
  }

  lemma SubsetIsAll(three: set<Key>, keys: set<Key>)
    requires three <= keys && |keys| == |three|
    ensures keys == three
  {
    assert |keys - three| == |keys| - |three|;
  }

  lemma PairsListedIs(value: Value)
    ensures PairsListed(value) <==> ArePairs(value)
  {
    if value.List? {
      forall i | 0 <= i < |value.items| ensures PairListed(value.items[i]) <==> IsRow(value.items[i]) {
        PairListedIs(value.items[i]);
      }
      hide PairListed;
      if forall i :: 0 <= i < |value.items| ==> IsRow(value.items[i]) {
        assert forall i :: 0 <= i < |value.items| ==> RowSeeds(value.items)[i] == value.items[i].entries[SeedKey].n;
      }
    }
  }

  lemma RefsListedIs(value: Value)
    ensures RefsListed(value) <==> AreRefs(value)
  {
    match value {
      case Str_(text) => VisibleIsNotBlank(text);
      case List(items) =>
        forall i | 0 <= i < |items| && items[i].Str_? ensures Visible(items[i].text) <==> !Blank(items[i].text) {
          VisibleIsNotBlank(items[i].text);
        }
        hide Visible, Blank;
      case _ =>
    }
  }

  lemma NamedIs(config: Config)
    ensures forall seeds :: Named(config, seeds) <==> ProtocolSeeds(config) == Some(seeds)
  {
  }

  lemma ExplicitIs(config: Config)
    ensures Explicit(config) <==> PairsIn(config) != []
  {
  }

  lemma PolicyIs(value: Value)
    ensures IsPolicy(Policy(value))
       <==> value.Str_? && var policy := Lower(Strip(value.text)); policy == "run" || policy == "skip" || policy == "reuse"
  {
    hide Strip, Lower;
  }

  lemma WellFormedIs(config: Config)
    ensures WellFormed(config) <==> Valid(config)
  {
    if Pairs in config { PairsListedIs(config[Pairs]); }
    if SeedsKey in config { SeedsListedIs(config[SeedsKey]); }
    forall seeds ensures SeedsListed(seeds) <==> SeedList(seeds).Ok? { SeedsListedIs(seeds); }
    if SeedFlag in config && config[SeedFlag].Str_? { VisibleIsNotBlank(config[SeedFlag].text); }
    if BaselineRef in config { RefsListedIs(config[BaselineRef]); }
    if BaselinePolicy in config { PolicyIs(config[BaselinePolicy]); }
    NamedIs(config);
    ExplicitIs(config);
    hide PairsListed, ArePairs, SeedsListed, SeedList, Named, ProtocolSeeds, Explicit, PairsIn, Visible, Blank,
         RefsListed, AreRefs, Policy, IsPolicy, Lower, Strip;
  }

  // ---------------------------------------------------------------------------------------------
  // The pairs of an accepted declaration
  // ---------------------------------------------------------------------------------------------

  /** As many pairs as values, the i-th with the i-th value as its seed. */
  predicate Seeded(config: Config, seeds: seq<Value>) {
    && Pairs in config && config[Pairs].List? && |config[Pairs].items| == |seeds|
    && forall i :: 0 <= i < |seeds| ==>
         var row := config[Pairs].items[i];
         row.Dict? && SeedKey in row.entries && row.entries[SeedKey] == seeds[i]
  }

  /** The pairs carry the seeds 0, 1, ... below the count. */
  predicate Counted(config: Config, count: Value) {
    && Pairs in config && config[Pairs].List? && count.Number? && |config[Pairs].items| == count.n
    && forall i :: 0 <= i < |config[Pairs].items| ==>
         var row := config[Pairs].items[i];
         row.Dict? && SeedKey in row.entries && row.entries[SeedKey] == Number(i)
  }

  lemma SeedsInRows(config: Config)
    requires !Explicit(config) && Normalize(config).Ok?
    ensures Valid(config)
    ensures var seeds, n := DeclaredSeeds(config).values, Normalize(config).value;
      && (seeds == [] ==> Pairs !in n)
      && (seeds != [] ==>
            && Pairs in n && n[Pairs].List? && |n[Pairs].items| == |seeds|
            && forall i :: 0 <= i < |seeds| ==>
                 var row := n[Pairs].items[i];
                 row.Dict? && SeedKey in row.entries && row.entries[SeedKey] == Number(seeds[i]))
  {
    ExplicitIs(config);
    NormalPairs(config);
    hide Normalize, Explicit, PairsIn;
    var n := Normalize(config).value;
    var seeds := DeclaredSeeds(config).values;
    if seeds != [] {
      OnePairPerSeed(config);
      hide Valid, DeclaredSeeds, WithSeed, BaseCommand, FlagOf, PairsOf;
      var rows := n[Pairs].items;
      assert RowSeeds(rows) == seeds;
      forall i | 0 <= i < |seeds|
        ensures rows[i].Dict? && SeedKey in rows[i].entries && rows[i].entries[SeedKey] == Number(seeds[i])
      {
        assert IsRow(rows[i]) && RowSeeds(rows)[i] == seeds[i];
      }
    } else {
      hide Valid, DeclaredSeeds;
      NoPairs(config);
    }
  }

  lemma NoPairs(config: Config)
    requires Valid(config) && PairsIn(config) == [] && DeclaredSeeds(config).values == []
    ensures PairsOf(config) == Ok([])
  {
    hide Valid, DeclaredSeeds;
  }

  lemma SeedsOf(config: Config)
    requires Valid(config)
    ensures SeedsKey in config ==>
      && config[SeedsKey].List? && SeedsListed(config[SeedsKey])
      && DeclaredSeeds(config) == Seeds(SeedList(config[SeedsKey]).value, EXPLICIT)
    ensures forall seeds :: SeedsKey !in config && Named(config, seeds) ==>
      && seeds.List? && SeedsListed(seeds)
      && (SeedFlag in config ==> DeclaredSeeds(config) == Seeds(SeedList(seeds).value, CONTRACT))
      && (SeedFlag !in config && SeedCount !in config ==> DeclaredSeeds(config) == Seeds([], FIXED))
      && (SeedFlag !in config && SeedCount in config ==>
            DeclaredSeeds(config) == Seeds(Range(config[SeedCount].n), COUNTED))
    ensures SeedsKey !in config && (forall seeds :: !Named(config, seeds)) ==>
      DeclaredSeeds(config)
      == if SeedCount in config then Seeds(Range(config[SeedCount].n), COUNTED) else Seeds([], SINGLE)
  {
    NamedIs(config);
    WellFormedIs(config);
    hide Named, ProtocolSeeds, SeedList, ArePairs, PairsListed, Explicit, RefsListed, AreRefs, Visible, PairsIn, Range;
  }

  lemma ListedSeeds(config: Config, value: Value)
    requires SeedsListed(value) && !Explicit(config) && Normalize(config).Ok?
    requires DeclaredSeeds(config).values == SeedList(value).value
    ensures Seeded(Normalize(config).value, value.items)
  {
    SeedsListedIs(value);
    SeedsInRows(config);
    hide Normalize, DeclaredSeeds, SeedList, Explicit;
  }

  lemma RangeCounts(count: int)
    requires count > 0
    ensures |Range(count)| == count && forall i :: 0 <= i < count ==> Range(count)[i] == i
  {
  }

  lemma CountedSeeds(config: Config, count: int)
    requires count > 0 && !Explicit(config) && Normalize(config).Ok? && DeclaredSeeds(config).values == Range(count)
    ensures Counted(Normalize(config).value, Number(count))
  {
    RangeCounts(count);
    SeedsInRows(config);
    hide Normalize, DeclaredSeeds, Explicit, Range;
  }

  /** Explicit pairs stay as they are. */
  lemma ExplicitStay(config: Config)
    requires Explicit(config) && Normalize(config).Ok?
    ensures Pairs in Normalize(config).value && Normalize(config).value[Pairs] == config[Pairs]
  {
    NormalPairs(config);
    ExplicitIs(config);
    hide Normalize, Valid, DeclaredSeeds, Expand;
  }

  /**
    The seeds of an accepted declaration without explicit pairs: its own list; else the protocol's list, where a
    flag is declared; else 0, 1, ... below its count; else there are no pairs.
  */
  lemma PairSeedsExactly(config: Config)
    requires Normalize(config).Ok? && !Explicit(config)
    ensures var n := Normalize(config).value;
      if SeedsKey in config then config[SeedsKey].List? && Seeded(n, config[SeedsKey].items)
      else if SeedFlag in config && exists seeds :: Named(config, seeds) then
        exists seeds :: Named(config, seeds) && seeds.List? && Seeded(n, seeds.items)
      else if SeedCount in config then Counted(n, config[SeedCount])
      else Pairs !in n
  {
    SeedsInRows(config);
    SeedsOf(config);
    assert SeedCount in config ==> config[SeedCount].Number? && config[SeedCount].n >= 1;
    hide Normalize, DeclaredSeeds, Explicit, Valid, SeedsListed, SeedList, Range, Seeded, Counted, Named;
    if SeedsKey in config {
      ListedSeeds(config, config[SeedsKey]);
    } else if SeedFlag in config && exists seeds :: Named(config, seeds) {
      var seeds :| Named(config, seeds);
      ListedSeeds(config, seeds);
    } else if SeedCount in config {
      if exists seeds :: Named(config, seeds) { var seeds :| Named(config, seeds); }
      CountedSeeds(config, config[SeedCount].n);
    } else {
      if exists seeds :: Named(config, seeds) { var seeds :| Named(config, seeds); }
    }
  }

  /** The argument list of this value. */
  predicate Spells(value: Value, command: Argv) {
    && value.List? && |value.items| == |command|
    && forall i :: 0 <= i < |command| ==> value.items[i] == Str_(command[i])
  }

  /** The command a role starts from: the declared one, or for the baseline its own where it has one. */
  predicate StartsFrom(config: Config, candidate: bool, command: Argv) {
    if !candidate && Baseline in config && config[Baseline].Dict? && Command in config[Baseline].entries
    then Spells(config[Baseline].entries[Command], command)
    else Command in config && Spells(config[Command], command)
  }

  /** Every pair's commands are those commands with the pair's seed written behind the declared flag. */
  ghost predicate Bound(config: Config, n: Config, candidate: bool, command: Argv) {
    && SeedFlag in config && config[SeedFlag].Str_? && Pairs in n && n[Pairs].List?
    && forall i :: 0 <= i < |n[Pairs].items| ==>
         var row := n[Pairs].items[i];
         && row.Dict? && SeedKey in row.entries && row.entries[SeedKey].Number?
         && var written := WithSeed(command, Strip(config[SeedFlag].text), row.entries[SeedKey].n);
            && written.Ok?
            && if candidate then CandidateCommand in row.entries && Spells(row.entries[CandidateCommand], written.value)
               else BaselineCommand in row.entries && Spells(row.entries[BaselineCommand], written.value)
  }

  lemma WordsSpell(value: Value)
    requires IsArgvValue(value)
    ensures Spells(value, Words(value.items))
  {
  }

  lemma BaseSpelled(config: Config, candidate: bool)
    requires BaseCommand(config, candidate).Ok?
    ensures StartsFrom(config, candidate, BaseCommand(config, candidate).value)
  {
    hide Spells, Words, IsArgvValue;
    if !candidate && Baseline in config && config[Baseline].Dict? && Command in config[Baseline].entries {
      WordsSpell(config[Baseline].entries[Command]);
    } else {
      WordsSpell(config[Command]);
    }
  }

  lemma RowSpelled(row: Value, candidate: bool)
    requires IsRow(row)
    ensures Spells(row.entries[if candidate then CandidateCommand else BaselineCommand], RowCommand(row, candidate))
  {
    WordsSpell(row.entries[if candidate then CandidateCommand else BaselineCommand]);
  }

  /** The expanded rows, by role. */
  lemma RowsWritten(config: Config, candidate: bool)
    requires Expands(config) && Normalize(config).Ok?
    ensures BaseCommand(config, candidate).Ok?
    ensures var n := Normalize(config).value;
      && Pairs in n && n[Pairs].List?
      && forall i :: 0 <= i < |n[Pairs].items| ==>
           && IsRow(n[Pairs].items[i])
           && WithSeed(BaseCommand(config, candidate).value, FlagOf(config), RowSeed(n[Pairs].items[i]))
              == Ok(RowCommand(n[Pairs].items[i], candidate))
  {
    OnePairPerSeed(config);
    hide Normalize, DeclaredSeeds, Valid, BaseCommand, WithSeed, FlagOf, PairsIn, IsRow, RowSeed, RowCommand;
    var n := Normalize(config).value;
    forall i | 0 <= i < |n[Pairs].items| ensures RowSeed(n[Pairs].items[i]) == DeclaredSeeds(config).values[i] {
      assert RowSeeds(n[Pairs].items)[i] == DeclaredSeeds(config).values[i];
    }
  }

  /** Expanded pairs carry both commands with their seed. */
  lemma PairCommandsExactly(config: Config, candidate: bool) returns (command: Argv)
    requires Normalize(config).Ok? && !Explicit(config) && Pairs in Normalize(config).value
    ensures StartsFrom(config, candidate, command) && Bound(config, Normalize(config).value, candidate, command)
  {
    ExplicitIs(config);
    SeedsInRows(config);
    RowsWritten(config, candidate);
    BaseSpelled(config, candidate);
    FlagIs(config);
    command := BaseCommand(config, candidate).value;
    hide Normalize, DeclaredSeeds, Explicit, Valid, BaseCommand, WithSeed, FlagOf, Spells, Strip, StartsFrom, RowCommand;
    var rows := Normalize(config).value[Pairs].items;
    forall i | 0 <= i < |rows|
      ensures Spells(rows[i].entries[if candidate then CandidateCommand else BaselineCommand], RowCommand(rows[i], candidate))
    {
      RowSpelled(rows[i], candidate);
    }
  }

  lemma FlagIs(config: Config)
    requires Expands(config) && Normalize(config).Ok?
    ensures SeedFlag in config && config[SeedFlag].Str_? && FlagOf(config) == Strip(config[SeedFlag].text)
  {
    ExpandsTo(config);
    hide Normalize, DeclaredSeeds, Strip, ArePairs, SeedList;
  }

  // ---------------------------------------------------------------------------------------------
  // The other keys
  // ---------------------------------------------------------------------------------------------

  /** The declared policy without white space and in lower case; else to run pairs and baselines, and to skip. */
  predicate PolicyIsFor(config: Config, policy: string) {
    if BaselinePolicy in config then config[BaselinePolicy].Str_? && policy == Lower(Strip(config[BaselinePolicy].text))
    else if Explicit(config) || Baseline in config then policy == "run" else policy == "skip"
  }

  lemma PolicyExactly(config: Config)
    requires Normalize(config).Ok?
    ensures PolicyIsFor(config, PolicyOf(config))
    ensures Holds(Normalize(config).value, BaselinePolicy, Some(Str_(PolicyOf(config))))
  {
    ExplicitIs(config);
    NormalizeAt(config, BaselinePolicy);
    GetIsOwn(Normalize(config).value, BaselinePolicy);
    hide Normalize, DeclaredSeeds, PairsOf, Strip, Lower, Holds, ArePairs, SeedList, Explicit, PairsIn, AreRefs;
    WellFormedIs(config);
    hide PairsListed, SeedsListed, RefsListed, Visible, Named;
  }

  predicate Compacts(key: Key) {
    key == SeedsKey || key == SeedCount || key == SeedFlag
  }

  predicate SettledKey(key: Key) {
    key == Pairs || key == BaselinePolicy || key == Baseline || key == ProtocolSeedFlag || key == ProtocolSeedReason
  }

  lemma OtherValue(config: Config, pairs: seq<Value>, seeds: Seeds, policy: string, key: Key)
    ensures Compacts(key) ==> NormalValue(config, pairs, seeds, policy, key) == None
    ensures !Compacts(key) && !SettledKey(key) ==> NormalValue(config, pairs, seeds, policy, key) == Get(config, key)
  {
    hide Get, PairsIn, FlagOf, NeedsControl;
  }

  /** The compact keys go, and all keys but the settled ones stay. */
  lemma OtherKeysExactly(config: Config, key: Key)
    requires Normalize(config).Ok?
    ensures Compacts(key) ==> Holds(Normalize(config).value, key, None)
    ensures !Compacts(key) && !SettledKey(key) ==> Holds(Normalize(config).value, key, Own(config, key))
  {
    hide Normalize, DeclaredSeeds, PairsOf, PolicyOf, Valid, Holds, Get, Own, Compacts, SettledKey, NormalValue;
    NormalizeAt(config, key);
    OtherValue(config, PairsOf(config).value, DeclaredSeeds(config), PolicyOf(config), key);
    GetIsOwn(config, key);
    GetIsOwn(Normalize(config).value, key);
  }

  /** A run without pairs and baseline gets its own command as the baseline, if that is one. */
  lemma BaselineExactly(config: Config)
    requires Normalize(config).Ok?
    ensures var n := Normalize(config).value;
      if Baseline !in config && Pairs !in n && n[BaselinePolicy] == Str_("run")
         && Command in config && CommandListed(config[Command])
      then Holds(n, Baseline, Some(Dict(map[Command := config[Command], Label := Str_("baseline")])))
      else Holds(n, Baseline, Own(config, Baseline))
    ensures BaselinePolicy in Normalize(config).value
  {
    NormalizeAt(config, Baseline);
    NormalizeAt(config, BaselinePolicy);
    NormalPairs(config);
    GetIsOwn(config, Baseline);
    GetIsOwn(Normalize(config).value, Baseline);
    if Command in config { CommandListedIs(config[Command]); }
    hide Normalize, DeclaredSeeds, PairsOf, PolicyOf, Valid, Holds, Own, IsArgvValue, CommandListed;
  }

  lemma FlagValue(config: Config)
    requires Valid(config) && PairsOf(config).Ok?
    ensures NormalValue(config, PairsOf(config).value, DeclaredSeeds(config), PolicyOf(config), ProtocolSeedFlag)
         == if SeedFlag in config then Get(config, SeedFlag) else Get(config, ProtocolSeedFlag)
  {
    hide Valid, DeclaredSeeds, PairsIn, Expand, PolicyOf, Get, FlagOf, BaseCommand;
  }

  /** The declared flag is retained under its own key. */
  lemma FlagExactly(config: Config)
    requires Normalize(config).Ok?
    ensures Holds(Normalize(config).value, ProtocolSeedFlag,
                  if SeedFlag in config then Some(config[SeedFlag]) else Own(config, ProtocolSeedFlag))
  {
    hide Normalize, DeclaredSeeds, PairsOf, PolicyOf, Valid, Holds, NormalValue;
    NormalizeAt(config, ProtocolSeedFlag);
    FlagValue(config);
    GetIsOwn(Normalize(config).value, ProtocolSeedFlag);
  }

  /** The reason of the seeds: given with explicit pairs, set with expanded ones, and filled in without any. */
  lemma ReasonExactly(config: Config)
    requires Normalize(config).Ok?
    ensures var own := Own(config, ProtocolSeedReason);
      Holds(Normalize(config).value, ProtocolSeedReason,
            if Explicit(config) then (if own.Some? then own else Some(Str_(PAIRED)))
            else if SeedsKey in config then Some(Str_(EXPLICIT))
            else if SeedFlag in config && exists seeds :: Named(config, seeds) then Some(Str_(CONTRACT))
            else if SeedCount in config then Some(Str_(COUNTED))
            else if own.Some? then own
            else if exists seeds :: Named(config, seeds) then Some(Str_(FIXED)) else Some(Str_(SINGLE)))
  {
    NormalizeAt(config, ProtocolSeedReason);
    GetIsOwn(config, ProtocolSeedReason);
    GetIsOwn(Normalize(config).value, ProtocolSeedReason);
    ExplicitIs(config);
    SeedsOf(config);
    SomeSeeds(config);
    ReasonIs(config);
    hide Normalize, DeclaredSeeds, PolicyOf, Valid, Holds, Own, Named, SeedsListed, SeedList, Range, PairsIn, Explicit,
         PairsOf, NormalValue;
  }

  lemma ReasonIs(config: Config)
    requires Valid(config) && PairsOf(config).Ok?
    ensures var own, seeds := Get(config, ProtocolSeedReason), DeclaredSeeds(config);
      NormalValue(config, PairsOf(config).value, seeds, PolicyOf(config), ProtocolSeedReason)
      == if PairsIn(config) != [] then (if own.Some? then own else Some(Str_(PAIRED)))
         else if seeds.values != [] then Some(Str_(seeds.reason))
         else if own.Some? then own else Some(Str_(seeds.reason))
  {
    hide Valid, DeclaredSeeds, PolicyOf, Expand, BaseCommand;
  }

  /** When there are seeds to expand. */
  lemma SomeSeeds(config: Config)
    requires Valid(config)
    ensures DeclaredSeeds(config).values != []
       <==> SeedsKey in config || SeedCount in config || (SeedFlag in config && exists seeds :: Named(config, seeds))
  {
    SeedsOf(config);
    if SeedsKey in config { SeedsListedIs(config[SeedsKey]); }
    forall seeds | Named(config, seeds) && SeedsListed(seeds) ensures SeedList(seeds).Ok? && SeedList(seeds).value != [] {
      SeedsListedIs(seeds);
    }
    if SeedCount in config {
      CountPositive(config);
      RangeCounts(config[SeedCount].n);
    }
    hide DeclaredSeeds, Valid, Named, SeedsListed, SeedList, Range;
  }

  lemma CountPositive(config: Config)
    requires Valid(config) && SeedCount in config
    ensures config[SeedCount].Number? && config[SeedCount].n > 0
  {
  }

  lemma {:induction false} ExpandOk(seeds: seq<int>, baseline: Argv, candidate: Argv, flag: string)
    requires seeds != []
    ensures Expand(seeds, baseline, candidate, flag).Ok?
       <==> CommandSeed(baseline, flag).Ok? && CommandSeed(candidate, flag).Ok?
  {
    hide CommandSeed, Row;
    var n := |seeds| - 1;
    if n > 0 {
      ExpandOk(seeds[..n], baseline, candidate, flag);
    } else {
      assert Expand(seeds[..n], baseline, candidate, flag) == Ok([]);
    }
  }

  predicate WordsGiven(command: Argv) {
    |command| > 0 && forall i :: 0 <= i < |command| ==> |command[i]| > 0
  }

  /** What a role starts from is a command in which the flag, if it stands there, stands once with an integer. */
  ghost predicate Startable(config: Config, candidate: bool) {
    && Command in config && SeedFlag in config && config[SeedFlag].Str_?
    && exists command :: StartsFrom(config, candidate, command) && WordsGiven(command)
         && CommandSeed(command, Strip(config[SeedFlag].text)).Ok?
  }

  lemma SpellsIs(value: Value, command: Argv)
    requires Spells(value, command)
    ensures value == ArgvValue(command)
    ensures IsArgvValue(value) ==> Words(value.items) == command
  {
    assert value.items == ArgvValue(command).items;
  }

  lemma BaseIsRead(config: Config, candidate: bool)
    requires Command in config
    ensures BaseCommand(config, candidate) == ArgvOf(BaseValue(config, candidate))
    ensures forall command :: StartsFrom(config, candidate, command) <==> Spells(BaseValue(config, candidate), command)
  {
    hide ArgvOf, Spells;
  }

  lemma StartableIs(config: Config, candidate: bool)
    requires Valid(config) && SeedFlag in config
    ensures Startable(config, candidate)
       <==> var base := BaseCommand(config, candidate); base.Ok? && CommandSeed(base.value, FlagOf(config)).Ok?
  {
    CountFlag(config);
    if Command in config {
      BaseIsRead(config, candidate);
      hide CommandSeed, Strip, Valid, FlagOf, Words, BaseCommand, BaseValue, StartsFrom;
      var from := BaseValue(config, candidate);
      if IsArgvValue(from) {
        WordsSpell(from);
        assert WordsGiven(Words(from.items)) by { SpelledWords(from, Words(from.items)); }
      }
      if Startable(config, candidate) {
        var command :| StartsFrom(config, candidate, command) && WordsGiven(command)
          && CommandSeed(command, Strip(config[SeedFlag].text)).Ok?;
        SpelledWords(from, command);
        SpellsIs(from, command);
      }
    }
  }

  lemma SpelledWords(value: Value, command: Argv)
    requires Spells(value, command)
    ensures WordsGiven(command) <==> IsArgvValue(value)
  {
  }

  function BaseValue(config: Config, candidate: bool): Value
    requires Command in config
  {
    if !candidate && Baseline in config && config[Baseline].Dict? && Command in config[Baseline].entries
    then config[Baseline].entries[Command] else config[Command]
  }

  lemma CountFlag(config: Config)
    requires Valid(config) && SeedFlag in config
    ensures config[SeedFlag].Str_? && FlagOf(config) == Strip(config[SeedFlag].text)
  {
    hide ArePairs, SeedList, Strip;
  }

  /** A declaration is accepted if and only if it is well formed and its seeds, if any, can be bound in both commands. */
  lemma AcceptedExactly(config: Config)
    ensures Normalize(config).Ok?
       <==> && WellFormed(config)
            && (|| Explicit(config)
                || !(SeedsKey in config || SeedCount in config
                     || (SeedFlag in config && exists seeds :: Named(config, seeds)))
                || (Startable(config, true) && Startable(config, false)))
  {
    WellFormedIs(config);
    ExplicitIs(config);
    if Valid(config) {
      SomeSeeds(config);
      var seeds := DeclaredSeeds(config).values;
      if SeedFlag in config {
        StartableIs(config, true);
        StartableIs(config, false);
        if seeds != [] && BaseCommand(config, true).Ok? && BaseCommand(config, false).Ok? {
          ExpandOk(seeds, BaseCommand(config, false).value, BaseCommand(config, true).value, FlagOf(config));
        }
      }
      hide DeclaredSeeds, WellFormed, Valid, Explicit, PairsIn, Named, BaseCommand, CommandSeed, FlagOf, Expand, StartsFrom,
           Normal, CommandListed;
    }
  }

  /** A pair fails the seed check of a request if and only if its command cannot be read or binds another seed. */
  lemma PairCheckExactly(row: Value, candidate: bool, flag: string, command: Argv)
    requires IsRow(row)
    requires Spells(row.entries[if candidate then CandidateCommand else BaselineCommand], command)
    ensures var check, seed, read := PairSeedCheck(row, candidate, flag), row.entries[SeedKey].n, CommandSeed(command, flag);
      && (check.Ok? ==> check.value == seed)
      && (check.Ok? <==> || flag == ""
                         || (read.Ok? && (read.value == Unbound || (read.value.Bound? && read.value.seed == seed))))
      && (check == Error(Conflict) <==> flag != "" && read.Ok? && read.value.Bound? && read.value.seed != seed)
  {
    var from := row.entries[if candidate then CandidateCommand else BaselineCommand];
    assert IsArgvValue(from);
    SpellsIs(from, command);
    hide IsArgvValue, Words, Spells;
  }

  // ---------------------------------------------------------------------------------------------
  // Merging
  // ---------------------------------------------------------------------------------------------

  /** What a merge does to one key, from the declaration and the proposal alone. */
  function Adopted(config: Config, protocol: Config, key: Key): Option<Value> {
    if key in config then Some(config[key])
    else
      match key
      case Command => Own(protocol, key)
      case Cwd => Own(protocol, key)
      case TimeoutSec => Own(protocol, key)
      case ResultSchema => Own(protocol, key)
      case BaselinePolicy => Own(protocol, key)
      case BaselineRef => Own(protocol, key)
      case Pairs => if SeedsKey in config || SeedCount in config || SeedFlag in config then None else Own(protocol, key)
      case SeedsKey => Compact(config, protocol, key)
      case SeedCount => Compact(config, protocol, key)
      case SeedFlag => Compact(config, protocol, key)
      case Baseline =>
        if BaselineCommand in protocol
        then Some(Dict(map[Command := protocol[BaselineCommand], Label := Str_("baseline")])) else None
      case Protocol => if Contract in protocol && protocol[Contract].Dict? then Some(protocol[Contract]) else None
      case _ => None
  }

  /** A seed key is not taken beside pairs, whether configured or taken from the proposal just before. */
  function Compact(config: Config, protocol: Config, key: Key): Option<Value> {
    if Pairs in config then None
    else if Pairs in protocol && !(SeedsKey in config || SeedCount in config || SeedFlag in config) then None
    else Own(protocol, key)
  }

  lemma {:induction false} KeysMerged(config: Config, protocol: Config, keys: seq<Key>, key: Key)
    ensures key !in keys ==> Get(MergeKeys(config, protocol, keys), key) == Get(config, key)
    ensures key in keys && key != Pairs && key !in COMPACT ==>
      Get(MergeKeys(config, protocol, keys), key) == if key in config then Get(config, key) else Get(protocol, key)
  {
    if keys != [] {
      var n := |keys| - 1;
      hide Blocked, COMPACT;
      KeysMerged(config, protocol, keys[..n], key);
      NeverBlocked(MergeKeys(config, protocol, keys[..n]), key);
      assert keys == keys[..n] + [keys[n]];
    }
  }

  lemma NeverBlocked(merged: Config, key: Key)
    ensures key != Pairs && key !in COMPACT ==> !Blocked(merged, key)
  {
    hide COMPACT;
  }

  lemma {:induction false} KeysConcat(config: Config, protocol: Config, front: seq<Key>, back: seq<Key>)
    ensures MergeKeys(config, protocol, front + back) == MergeKeys(MergeKeys(config, protocol, front), protocol, back)
  {
    if back == [] {
      assert front + back == front;
    } else {
      var n := |back| - 1;
      KeysConcat(config, protocol, front, back[..n]);
      assert (front + back)[..|front + back| - 1] == front + back[..n];
    }
  }

  const FIRST: seq<Key> := [Command, Cwd, TimeoutSec, ResultSchema]
  const LAST: seq<Key> := [BaselinePolicy, BaselineRef]

  /** The keys that decide between pairs and seeds, one after the other. */
  function SeedKeysMerged(config: Config, protocol: Config): Config {
    MergeKey(MergeKey(MergeKey(MergeKey(config, protocol, Pairs), protocol, SeedsKey), protocol, SeedCount), protocol, SeedFlag)
  }

  lemma FourKeys(config: Config, protocol: Config)
    ensures MergeKeys(config, protocol, [Pairs, SeedsKey, SeedCount, SeedFlag]) == SeedKeysMerged(config, protocol)
  {
    hide MergeKey;
    var keys: seq<Key> := [Pairs, SeedsKey, SeedCount, SeedFlag];
    assert keys[..3][..2] == keys[..2] && keys[..2][..1] == keys[..1] && keys[..1][..0] == [];
    assert MergeKeys(config, protocol, keys[..1]) == MergeKey(config, protocol, Pairs);
    assert MergeKeys(config, protocol, keys[..2]) == MergeKey(MergeKeys(config, protocol, keys[..1]), protocol, SeedsKey);
    assert MergeKeys(config, protocol, keys[..3]) == MergeKey(MergeKeys(config, protocol, keys[..2]), protocol, SeedCount);
  }

  lemma SeedKeysExactly(config: Config, protocol: Config, key: Key)
    requires key in {Pairs, SeedsKey, SeedCount, SeedFlag}
    ensures Get(SeedKeysMerged(config, protocol), key) == Adopted(config, protocol, key)
  {
    assert forall k <- COMPACT :: k == SeedsKey || k == SeedCount || k == SeedFlag;
    assert SeedsKey in COMPACT && SeedCount in COMPACT && SeedFlag in COMPACT;
  }

  lemma SameSeedKeys(one: Config, other: Config, protocol: Config, key: Key)
    requires key in {Pairs, SeedsKey, SeedCount, SeedFlag}
    requires forall k :: k in {Pairs, SeedsKey, SeedCount, SeedFlag} ==> Own(one, k) == Own(other, k)
    ensures Adopted(one, protocol, key) == Adopted(other, protocol, key)
  {
    assert Own(one, Pairs) == Own(other, Pairs) && Own(one, SeedsKey) == Own(other, SeedsKey);
    assert Own(one, SeedCount) == Own(other, SeedCount) && Own(one, SeedFlag) == Own(other, SeedFlag);
  }

  lemma KeysInOrder()
    ensures MERGED == FIRST + [Pairs, SeedsKey, SeedCount, SeedFlag] + LAST
  {
  }

  /** The three stretches of the adopted keys. */
  lemma KeysSplit(config: Config, protocol: Config)
    ensures MergeKeys(config, protocol, MERGED)
         == MergeKeys(SeedKeysMerged(MergeKeys(config, protocol, FIRST), protocol), protocol, LAST)
  {
    var middle: seq<Key> := [Pairs, SeedsKey, SeedCount, SeedFlag];
    var first := MergeKeys(config, protocol, FIRST);
    KeysInOrder();
    FourKeys(first, protocol);
    hide MergeKeys, SeedKeysMerged, MERGED, FIRST, LAST;
    KeysConcat(config, protocol, FIRST + middle, LAST);
    KeysConcat(config, protocol, FIRST, middle);
  }

  lemma SeedKeysOnly(config: Config, protocol: Config, key: Key)
    requires key !in {Pairs, SeedsKey, SeedCount, SeedFlag}
    ensures Get(SeedKeysMerged(config, protocol), key) == Get(config, key)
  {
    hide Blocked;
  }

  lemma PlainKeys(key: Key)
    ensures key in FIRST <==> key == Command || key == Cwd || key == TimeoutSec || key == ResultSchema
    ensures key in LAST <==> key == BaselinePolicy || key == BaselineRef
    ensures key in COMPACT <==> key == SeedsKey || key == SeedCount || key == SeedFlag
  {
  }

  /** The adoption loop, in three stretches, for a key that no other key blocks. */
  lemma PlainAt(config: Config, protocol: Config, key: Key)
    requires key !in {Pairs, SeedsKey, SeedCount, SeedFlag}
    ensures Get(MergeKeys(config, protocol, MERGED), key)
         == if key in config then Get(config, key)
            else if key in {Command, Cwd, TimeoutSec, ResultSchema, BaselinePolicy, BaselineRef} then Get(protocol, key)
            else None
  {
    var first := MergeKeys(config, protocol, FIRST);
    var seeded := SeedKeysMerged(first, protocol);
    PlainKeys(key);
    hide MergeKeys, SeedKeysMerged, FIRST, LAST, COMPACT, MERGED;
    KeysSplit(config, protocol);
    KeysMerged(config, protocol, FIRST, key);
    SeedKeysOnly(first, protocol, key);
    KeysMerged(seeded, protocol, LAST, key);
  }

  lemma SeedsAt(config: Config, protocol: Config, key: Key)
    requires key in {Pairs, SeedsKey, SeedCount, SeedFlag}
    ensures Get(MergeKeys(config, protocol, MERGED), key) == Adopted(config, protocol, key)
  {
    var first := MergeKeys(config, protocol, FIRST);
    var seeded := SeedKeysMerged(first, protocol);
    PlainKeys(key);
    hide MergeKeys, SeedKeysMerged, LAST, COMPACT, MERGED, Adopted;
    KeysSplit(config, protocol);
    KeysMerged(seeded, protocol, LAST, key);
    SeedKeysExactly(first, protocol, key);
    forall k | k in {Pairs, SeedsKey, SeedCount, SeedFlag} ensures Own(first, k) == Own(config, k) {
      PlainKeys(k);
      KeysMerged(config, protocol, FIRST, k);
      GetIsOwn(first, k);
      GetIsOwn(config, k);
    }
    SameSeedKeys(first, config, protocol, key);
  }

  /** One key after the adoption loop. */
  lemma AdoptedAt(config: Config, protocol: Config, key: Key)
    ensures Get(MergeKeys(config, protocol, MERGED), key)
         == if key == Baseline || key == Protocol then Get(config, key) else Adopted(config, protocol, key)
  {
    hide MergeKeys, MERGED, Compact;
    if key in {Pairs, SeedsKey, SeedCount, SeedFlag} {
      hide Adopted, Get;
      SeedsAt(config, protocol, key);
    } else {
      PlainAt(config, protocol, key);
    }
  }

  /** One key of the merged declaration. */
  lemma MergeExactly(config: Config, protocol: Config, key: Key)
    ensures Holds(Merge(config, Some(protocol)), key, Adopted(config, protocol, key))
  {
    var merged := MergeKeys(config, protocol, MERGED);
    var all := MergeDerived(merged, protocol);
    AdoptedAt(config, protocol, key);
    hide MergeKeys, MERGED;
    DerivedFacts(merged, protocol);
    hide MergeDerived;
    GetIsOwn(merged, key);
    GetIsOwn(all, key);
    GetIsOwn(config, key);
    if key == Baseline || key == Protocol {
      hide Compact;
    } else {
      hide Adopted;
      assert key in merged <==> key in all;
    }
  }
}
