/**
  Normalising and merging execution declarations: src/simple_ar/app/research_execution.py. A
  declaration is a dictionary of JSON-like values; lists and tuples are not distinguished.
*/
module ExecutionConfig {
  import opened Wrappers
  import opened Texts
  import opened SeedArgv

  /** The dictionary keys the code knows by name, and any other. */
  datatype Key =
    | Command | Cwd | TimeoutSec | ResultSchema
    | Pairs | SeedsKey | SeedCount | SeedFlag | SeedKey | BaselineCommand | CandidateCommand
    | BaselinePolicy | BaselineRef | Baseline | Label
    | Protocol | ComparisonConditions | Contract
    | ProtocolSeedReason | ProtocolSeedFlag
    | Named(name: string)

  datatype Value =
    | Null
    | Flag(truth: bool)
    | Number(n: int)
    | Str_(text: string)
    | List(items: seq<Value>)
    | Dict(entries: map<Key, Value>)
    | Other(text: string)   // any value of another type

  type Config = map<Key, Value>

  const COMPACT: seq<Key> := [SeedsKey, SeedCount, SeedFlag]

  predicate HasCompact(config: Config) {
    SeedsKey in config || SeedCount in config || SeedFlag in config
  }

  // ---------------------------------------------------------------------------------------------
  // Validation
  // ---------------------------------------------------------------------------------------------

  function Ints(items: seq<Value>): seq<int>
    requires forall i :: 0 <= i < |items| ==> items[i].Number?
  {
    seq(|items|, i requires 0 <= i < |items| => items[i].n)
  }

  predicate DistinctInts(xs: seq<int>) {
    forall i, j :: 0 <= i < j < |xs| ==> xs[i] != xs[j]
  }

  /** `_seed_list` */
  function SeedList(value: Value): Result<seq<int>> {
    if value.List? && value.items != [] && (forall i :: 0 <= i < |value.items| ==> value.items[i].Number?)
       && DistinctInts(Ints(value.items))
    then Ok(Ints(value.items)) else Error(Malformed)
  }

  function Words(items: seq<Value>): Argv
    requires forall i :: 0 <= i < |items| ==> items[i].Str_?
  {
    seq(|items|, i requires 0 <= i < |items| => items[i].text)
  }

  predicate IsArgvValue(value: Value) {
    value.List? && value.items != [] &&
    forall i :: 0 <= i < |value.items| ==> value.items[i].Str_? && value.items[i].text != ""
  }

  /** `_argv` */
  function ArgvOf(value: Value): Result<Argv> {
    if IsArgvValue(value) then Ok(Words(value.items)) else Error(Malformed)
  }

  function ArgvValue(command: Argv): Value {
    List(seq(|command|, i requires 0 <= i < |command| => Str_(command[i])))
  }

  predicate IsRow(row: Value) {
    row.Dict? && row.entries.Keys == {SeedKey, BaselineCommand, CandidateCommand} &&
    row.entries[SeedKey].Number? && IsArgvValue(row.entries[BaselineCommand]) &&
    IsArgvValue(row.entries[CandidateCommand])
  }

  function RowSeed(row: Value): int
    requires IsRow(row)
  {
    row.entries[SeedKey].n
  }

  function RowSeeds(rows: seq<Value>): seq<int>
    requires forall i :: 0 <= i < |rows| ==> IsRow(rows[i])
  {
    seq(|rows|, i requires 0 <= i < |rows| => RowSeed(rows[i]))
  }

  function RowCommand(row: Value, candidate: bool): Argv
    requires IsRow(row)
  {
    Words(row.entries[if candidate then CandidateCommand else BaselineCommand].items)
  }

  predicate ArePairs(value: Value) {
    value.List? && (forall i :: 0 <= i < |value.items| ==> IsRow(value.items[i])) && DistinctInts(RowSeeds(value.items))
  }

  /** The explicitly declared pairs; none when the key is missing. */
  function PairsIn(config: Config): seq<Value> {
    if Pairs in config && config[Pairs].List? then config[Pairs].items else []
  }

  /** The seeds a protocol names among its comparison conditions. */
  function ProtocolSeeds(config: Config): Option<Value> {
    if Protocol in config && config[Protocol].Dict? && ComparisonConditions in config[Protocol].entries then
      var comparison := config[Protocol].entries[ComparisonConditions];
      if comparison.Dict? && SeedsKey in comparison.entries then Some(comparison.entries[SeedsKey]) else None
    else None
  }

  predicate IsWord(value: Value) {
    value.Str_? && !Blank(value.text)
  }

  predicate AreRefs(value: Value) {
    if value.List? then value.items != [] && forall i :: 0 <= i < |value.items| ==> IsWord(value.items[i])
    else IsWord(value)
  }

  function Policy(value: Value): string {
    if value.Str_? then Lower(Strip(value.text)) else ""
  }

  predicate IsPolicy(policy: string) {
    policy in ["run", "skip", "reuse"]
  }

  /** The conditions under which `validate_execution_declaration` accepts. */
  predicate Valid(config: Config) {
    && (Pairs in config ==> ArePairs(config[Pairs]))
    && (PairsIn(config) != [] ==> !HasCompact(config))
    && (SeedsKey in config ==> SeedList(config[SeedsKey]).Ok?)
    && (ProtocolSeeds(config).Some? ==> SeedList(ProtocolSeeds(config).value).Ok?)
    && (SeedCount in config ==> config[SeedCount].Number? && config[SeedCount].n >= 1)
    && (SeedFlag in config ==> IsWord(config[SeedFlag]))
    && (BaselineRef in config ==> AreRefs(config[BaselineRef]))
    && (BaselinePolicy in config ==> IsPolicy(Policy(config[BaselinePolicy])))
  }

  function PolicyOf(config: Config): string {
    if BaselinePolicy in config then Policy(config[BaselinePolicy])
    else if PairsIn(config) != [] || Baseline in config then "run" else "skip"
  }

  // ---------------------------------------------------------------------------------------------
  // Normalisation
  // ---------------------------------------------------------------------------------------------

  const EXPLICIT := "explicit seeds"
  const CONTRACT := "seeds and flag declared in the contract"
  const FIXED := "protocol seeds, fixed command"
  const COUNTED := "seeds counted"
  const SINGLE := "no repeated seed"
  const PAIRED := "explicit pairs"

  datatype Seeds = Seeds(values: seq<int>, reason: string)

  function Range(count: int): seq<int> {
    if count <= 0 then [] else seq(count, i => i)
  }

  /** `_declared_seed_values` on a validated declaration. */
  function DeclaredSeeds(config: Config): Seeds
    requires Valid(config)
  {
    if SeedsKey in config then Seeds(SeedList(config[SeedsKey]).value, EXPLICIT)
    else if ProtocolSeeds(config).Some? && SeedFlag in config then
      Seeds(SeedList(ProtocolSeeds(config).value).value, CONTRACT)
    else if ProtocolSeeds(config).Some? && SeedCount !in config then Seeds([], FIXED)
    else if SeedCount in config then Seeds(Range(config[SeedCount].n), COUNTED)
    else Seeds([], SINGLE)
  }

  /** The command each role of an expanded pair starts from. */
  function BaseCommand(config: Config, candidate: bool): Result<Argv> {
    if Command !in config then Error(Malformed)
    else if !candidate && Baseline in config && config[Baseline].Dict? && Command in config[Baseline].entries
    then ArgvOf(config[Baseline].entries[Command])
    else ArgvOf(config[Command])
  }

  function Row(seed: int, baseline: Argv, candidate: Argv): Value {
    Dict(map[SeedKey := Number(seed), BaselineCommand := ArgvValue(baseline), CandidateCommand := ArgvValue(candidate)])
  }

  /** One pair per seed, in order. */
  function Expand(seeds: seq<int>, baseline: Argv, candidate: Argv, flag: string): Result<seq<Value>> {
    if seeds == [] then Ok([])
    else
      var n := |seeds| - 1;
      var front := Expand(seeds[..n], baseline, candidate, flag);
      var b, c := WithSeed(baseline, flag, seeds[n]), WithSeed(candidate, flag, seeds[n]);
      if front.Error? then front
      else if b.Error? then Error(b.reason)
      else if c.Error? then Error(c.reason)
      else Ok(front.value + [Row(seeds[n], b.value, c.value)])
  }

  function FlagOf(config: Config): string {
    if SeedFlag in config && config[SeedFlag].Str_? then Strip(config[SeedFlag].text) else ""
  }

  /** The pairs a valid declaration stands for. */
  function PairsOf(config: Config): Result<seq<Value>>
    requires Valid(config)
  {
    var seeds := DeclaredSeeds(config).values;
    if PairsIn(config) != [] then Ok(PairsIn(config))
    else if seeds == [] then Ok([])
    else if SeedFlag !in config then Error(Malformed)
    else
      var candidate, baseline := BaseCommand(config, true), BaseCommand(config, false);
      if candidate.Error? then Error(candidate.reason)
      else if baseline.Error? then Error(baseline.reason)
      else Expand(seeds, baseline.value, candidate.value, FlagOf(config))
  }

  predicate Stripped(key: Key) {
    key == SeedsKey || key == SeedCount || key == SeedFlag
  }

  function Get(config: Config, key: Key): Option<Value> {
    if key in config then Some(config[key]) else None
  }

  /** One key after pairs have been bound: expanded, copied or dropped. */
  function BoundValue(config: Config, pairs: seq<Value>, seeds: Seeds, key: Key): Option<Value> {
    var expanded := PairsIn(config) == [] && seeds.values != [];
    match key
    case Pairs => if pairs == [] then None else Some(List(pairs))
    case ProtocolSeedReason =>
      if expanded then Some(Str_(seeds.reason))
      else if pairs != [] && key !in config then Some(Str_(PAIRED))
      else Get(config, key)
    case ProtocolSeedFlag => if expanded then Some(Str_(FlagOf(config))) else Get(config, key)
    case _ => Get(config, key)
  }

  predicate NeedsControl(config: Config, pairs: seq<Value>, policy: string) {
    policy == "run" && pairs == [] && Baseline !in config && Command in config && IsArgvValue(config[Command])
  }

  /** One key of the normalised declaration. */
  function NormalValue(config: Config, pairs: seq<Value>, seeds: Seeds, policy: string, key: Key): Option<Value> {
    match key
    case SeedsKey => None
    case SeedCount => None
    case SeedFlag => None
    case BaselinePolicy => Some(Str_(policy))
    case ProtocolSeedFlag => if SeedFlag in config then Get(config, SeedFlag) else BoundValue(config, pairs, seeds, key)
    case ProtocolSeedReason =>
      var bound := BoundValue(config, pairs, seeds, key);
      if bound.None? then Some(Str_(seeds.reason)) else bound
    case Baseline =>
      if NeedsControl(config, pairs, policy)
      then Some(Dict(map[Command := config[Command], Label := Str_("baseline")])) else Get(config, key)
    case _ => BoundValue(config, pairs, seeds, key)
  }

  const ADDED: set<Key> := {Pairs, BaselinePolicy, Baseline, ProtocolSeedFlag, ProtocolSeedReason}

  function Normal(config: Config, pairs: seq<Value>, seeds: Seeds, policy: string): Config {
    map key | key in config.Keys + ADDED && NormalValue(config, pairs, seeds, policy, key).Some?
      :: NormalValue(config, pairs, seeds, policy, key).value
  }

  function Normalize(config: Config): Result<Config> {
    if !Valid(config) then Error(Malformed)
    else
      var pairs := PairsOf(config);
      if pairs.Error? then Error(pairs.reason)
      else Ok(Normal(config, pairs.value, DeclaredSeeds(config), PolicyOf(config)))
  }

  lemma NormalAt(config: Config, pairs: seq<Value>, seeds: Seeds, policy: string, key: Key)
    ensures Get(Normal(config, pairs, seeds, policy), key) == NormalValue(config, pairs, seeds, policy, key)
  {
    hide PairsIn, FlagOf, NeedsControl;
  }

  lemma SameConfig(one: Config, other: Config)
    requires forall key :: Get(one, key) == Get(other, key)
    ensures one == other
  {
    assert forall key :: (key in one <==> Get(one, key).Some?) && (key in other <==> Get(other, key).Some?);
    assert forall key :: key in one ==> Get(one, key) == Some(one[key]) && Get(other, key) == Some(other[key]);
  }

  lemma BindsExpanded(config: Config, pairs: seq<Value>, seeds: Seeds)
    requires PairsIn(config) == [] && seeds.values != [] && pairs != []
    ensures var bound := config[Pairs := List(pairs)][ProtocolSeedReason := Str_(seeds.reason)]
                               [ProtocolSeedFlag := Str_(FlagOf(config))];
      forall key :: Get(bound, key) == BoundValue(config, pairs, seeds, key)
  {
    hide FlagOf;
  }

  lemma BindsExplicit(config: Config, pairs: seq<Value>, seeds: Seeds)
    requires PairsIn(config) == pairs != []
    ensures var bound := config[Pairs := List(pairs)];
      forall key :: Get(if ProtocolSeedReason in bound then bound else bound[ProtocolSeedReason := Str_(PAIRED)], key)
                 == BoundValue(config, pairs, seeds, key)
  {
    hide FlagOf;
  }

  lemma BindsNothing(config: Config, seeds: Seeds)
    requires PairsIn(config) == [] && seeds.values == []
    ensures forall key :: Get(config - {Pairs}, key) == BoundValue(config, [], seeds, key)
  {
    hide FlagOf;
  }

  lemma {:induction false} ExpandLength(seeds: seq<int>, baseline: Argv, candidate: Argv, flag: string)
    requires Expand(seeds, baseline, candidate, flag).Ok?
    ensures |Expand(seeds, baseline, candidate, flag).value| == |seeds|
  {
    hide WithSeed;
    if seeds != [] { ExpandLength(seeds[..|seeds| - 1], baseline, candidate, flag); }
  }

  lemma {:induction false} ExpandFails(seeds: seq<int>, n: nat, baseline: Argv, candidate: Argv, flag: string)
    requires n <= |seeds| && Expand(seeds[..n], baseline, candidate, flag).Error?
    ensures Expand(seeds, baseline, candidate, flag) == Expand(seeds[..n], baseline, candidate, flag)
  {
    hide WithSeed, Row;
    if n == |seeds| {
      assert seeds[..n] == seeds;
    } else {
      var m := |seeds| - 1;
      assert seeds[..m][..n] == seeds[..n];
      ExpandFails(seeds[..m], n, baseline, candidate, flag);
    }
  }

  method ExpandLoop(seeds: seq<int>, baseline: Argv, candidate: Argv, flag: string) returns (result: Result<seq<Value>>)
    ensures result == Expand(seeds, baseline, candidate, flag)
  {
    hide WithSeed;
    var rows: seq<Value> := [];
    for i := 0 to |seeds|
      invariant Expand(seeds[..i], baseline, candidate, flag) == Ok(rows)
    {
      assert seeds[..i + 1][..i] == seeds[..i];
      var b := WithSeed(baseline, flag, seeds[i]);
      var c := WithSeed(candidate, flag, seeds[i]);
      if b.Error? || c.Error? {
        result := Error(if b.Error? then b.reason else c.reason);
        ExpandFails(seeds, i + 1, baseline, candidate, flag);
        return;
      }
      rows := rows + [Row(seeds[i], b.value, c.value)];
    }
    assert seeds[..|seeds|] == seeds;
    return Ok(rows);
  }

  /** The seed and pair branches of `normalize_execution_config`. */
  method BindPairs(config: Config, seeds: Seeds) returns (pairs: Result<seq<Value>>, bound: Config)
    requires Valid(config) && seeds == DeclaredSeeds(config)
    ensures pairs == PairsOf(config)
    ensures pairs.Ok? ==> forall key :: Get(bound, key) == BoundValue(config, pairs.value, seeds, key)
  {
    hide Valid, DeclaredSeeds, Expand, FlagOf, Get, BoundValue;
    bound := config;
    var explicit := PairsIn(config);
    if seeds.values != [] && explicit == [] {
      if SeedFlag !in config { return Error(Malformed), bound; }
      var candidate := BaseCommand(config, true);
      if candidate.Error? { return Error(candidate.reason), bound; }
      var baseline := BaseCommand(config, false);
      if baseline.Error? { return Error(baseline.reason), bound; }
      pairs := ExpandLoop(seeds.values, baseline.value, candidate.value, FlagOf(config));
      if pairs.Ok? {
        ExpandLength(seeds.values, baseline.value, candidate.value, FlagOf(config));
        BindsExpanded(config, pairs.value, seeds);
        bound := bound[Pairs := List(pairs.value)];
        bound := bound[ProtocolSeedReason := Str_(seeds.reason)];
        bound := bound[ProtocolSeedFlag := Str_(FlagOf(config))];
      }
    } else if explicit != [] {
      pairs := Ok(explicit);
      BindsExplicit(config, explicit, seeds);
      bound := bound[Pairs := List(explicit)];
      if ProtocolSeedReason !in bound {
        bound := bound[ProtocolSeedReason := Str_(PAIRED)];
      }
    } else {
      pairs := Ok([]);
      BindsNothing(config, seeds);
      bound := bound - {Pairs};
    }
  }

  /** The declared flag is retained under its own key, the compact keys go, the policy is resolved. */
  function Retain(bound: Config, policy: string): Config {
    var retained := if SeedFlag in bound then bound[ProtocolSeedFlag := bound[SeedFlag]] else bound;
    (retained - {SeedsKey, SeedCount, SeedFlag})[BaselinePolicy := Str_(policy)]
  }

  lemma RetainAt(bound: Config, policy: string, key: Key)
    ensures Get(Retain(bound, policy), key)
         == if Stripped(key) then None
            else if key == BaselinePolicy then Some(Str_(policy))
            else if key == ProtocolSeedFlag && Get(bound, SeedFlag).Some? then Get(bound, SeedFlag)
            else Get(bound, key)
  {
  }

  /** A run decision without a control gets the declared command; the reason is filled in. */
  function Control(retained: Config, pairs: seq<Value>, reason: string, policy: string): Config {
    var controlled :=
      if policy == "run" && pairs == [] && Baseline !in retained && Command in retained && IsArgvValue(retained[Command])
      then retained[Baseline := Dict(map[Command := retained[Command], Label := Str_("baseline")])] else retained;
    if ProtocolSeedReason in controlled then controlled else controlled[ProtocolSeedReason := Str_(reason)]
  }

  lemma ControlAt(retained: Config, pairs: seq<Value>, reason: string, policy: string, key: Key)
    ensures Get(Control(retained, pairs, reason, policy), key)
         == var command := Get(retained, Command);
            if key == Baseline && policy == "run" && pairs == [] && Get(retained, Baseline).None?
               && command.Some? && IsArgvValue(command.value)
            then Some(Dict(map[Command := command.value, Label := Str_("baseline")]))
            else if key == ProtocolSeedReason && Get(retained, key).None? then Some(Str_(reason))
            else Get(retained, key)
  {
    hide IsArgvValue;
  }

  lemma SettledAt(config: Config, bound: Config, pairs: seq<Value>, seeds: Seeds, policy: string, key: Key)
    requires forall k :: Get(bound, k) == BoundValue(config, pairs, seeds, k)
    ensures Get(Control(Retain(bound, policy), pairs, seeds.reason, policy), key)
         == NormalValue(config, pairs, seeds, policy, key)
  {
    hide IsArgvValue, FlagOf, PairsIn, Get, BoundValue, NormalValue, Control, Retain;
    Untouched(config, pairs, seeds);
    NormalValueIs(config, pairs, seeds, policy, key);
    ControlAt(Retain(bound, policy), pairs, seeds.reason, policy, key);
    RetainAt(bound, policy, key);
    RetainAt(bound, policy, Command);
    RetainAt(bound, policy, Baseline);
  }

  /** The rest of `normalize_execution_config`, once pairs are bound. */
  method Settle(
      ghost config: Config, ghost seeds: Seeds, bound: Config, pairs: seq<Value>, reason: string, policy: string)
    returns (normalized: Config)
    requires reason == seeds.reason
    requires forall key :: Get(bound, key) == BoundValue(config, pairs, seeds, key)
    ensures forall key :: Get(normalized, key) == NormalValue(config, pairs, seeds, policy, key)
  {
    hide IsArgvValue, Get, BoundValue, NormalValue;
    normalized := bound;
    if SeedFlag in normalized {
      normalized := normalized[ProtocolSeedFlag := normalized[SeedFlag]];
    }
    normalized := normalized - {SeedsKey, SeedCount, SeedFlag};
    normalized := normalized[BaselinePolicy := Str_(policy)];
    if policy == "run" && pairs == [] && Baseline !in normalized {
      if Command in normalized && IsArgvValue(normalized[Command]) {
        normalized := normalized[Baseline := Dict(map[Command := normalized[Command], Label := Str_("baseline")])];
      }
    }
    if ProtocolSeedReason !in normalized {
      normalized := normalized[ProtocolSeedReason := Str_(reason)];
    }
    assert normalized == Control(Retain(bound, policy), pairs, reason, policy);
    forall key ensures Get(normalized, key) == NormalValue(config, pairs, seeds, policy, key) {
      SettledAt(config, bound, pairs, seeds, policy, key);
    }
  }

  lemma Untouched(config: Config, pairs: seq<Value>, seeds: Seeds)
    ensures BoundValue(config, pairs, seeds, SeedFlag) == Get(config, SeedFlag)
    ensures BoundValue(config, pairs, seeds, Command) == Get(config, Command)
    ensures BoundValue(config, pairs, seeds, Baseline) == Get(config, Baseline)
  {
  }

  /** The cases of `NormalValue`, in terms of lookups. */
  lemma NormalValueIs(config: Config, pairs: seq<Value>, seeds: Seeds, policy: string, key: Key)
    ensures NormalValue(config, pairs, seeds, policy, key)
         == var bound, command := BoundValue(config, pairs, seeds, key), Get(config, Command);
            if Stripped(key) then None
            else if key == BaselinePolicy then Some(Str_(policy))
            else if key == ProtocolSeedFlag && Get(config, SeedFlag).Some? then Get(config, SeedFlag)
            else if key == ProtocolSeedReason && bound.None? then Some(Str_(seeds.reason))
            else if key == Baseline && policy == "run" && pairs == [] && Get(config, Baseline).None?
                    && command.Some? && IsArgvValue(command.value)
            then Some(Dict(map[Command := command.value, Label := Str_("baseline")]))
            else bound
  {
    hide IsArgvValue, FlagOf, PairsIn;
  }

  /** `normalize_execution_config`: copy the declaration and edit the copy step by step. */
  method NormalizeExecutionConfig(config: Config) returns (result: Result<Config>)
    ensures result == Normalize(config)
  {
    if !Valid(config) { return Error(Malformed); }
    var policy := PolicyOf(config);
    var seeds := DeclaredSeeds(config);
    var pairs, bound := BindPairs(config, seeds);
    if pairs.Error? { return Error(pairs.reason); }
    var normalized := Settle(config, seeds, bound, pairs.value, seeds.reason, policy);
    hide Valid, DeclaredSeeds, PairsOf, PolicyOf, Get, BoundValue, NormalValue, Normal, Control, Retain;
    forall key ensures Get(normalized, key) == Get(Normal(config, pairs.value, seeds, policy), key) {
      NormalAt(config, pairs.value, seeds, policy, key);
    }
    SameConfig(normalized, Normal(config, pairs.value, seeds, policy));
    return Ok(normalized);
  }

  // ---------------------------------------------------------------------------------------------
  // One pair per seed
  // ---------------------------------------------------------------------------------------------

  lemma ArgvValueRoundTrip(command: Argv)
    requires IsArgv(command)
    ensures IsArgvValue(ArgvValue(command)) && Words(ArgvValue(command).items) == command
  {
  }

  lemma RowSound(seed: int, baseline: Argv, candidate: Argv)
    requires IsArgv(baseline) && IsArgv(candidate)
    ensures var row := Row(seed, baseline, candidate);
      && IsRow(row) && RowSeed(row) == seed
      && RowCommand(row, false) == baseline && RowCommand(row, true) == candidate
  {
    ArgvValueRoundTrip(baseline);
    ArgvValueRoundTrip(candidate);
  }

  /** Expansion gives the seeds back in order, each with both commands carrying it. */
  lemma {:induction false} ExpandSound(seeds: seq<int>, baseline: Argv, candidate: Argv, flag: string)
    requires IsArgv(baseline) && IsArgv(candidate) && flag != ""
    requires Expand(seeds, baseline, candidate, flag).Ok?
    ensures var rows := Expand(seeds, baseline, candidate, flag).value;
      && |rows| == |seeds|
      && forall i :: 0 <= i < |rows| ==>
           && IsRow(rows[i]) && RowSeed(rows[i]) == seeds[i]
           && WithSeed(baseline, flag, seeds[i]) == Ok(RowCommand(rows[i], false))
           && WithSeed(candidate, flag, seeds[i]) == Ok(RowCommand(rows[i], true))
  {
    hide WithSeed, IsRow, RowSeed, RowCommand, Row;
    if seeds != [] {
      var n := |seeds| - 1;
      ExpandSound(seeds[..n], baseline, candidate, flag);
      var b, c := WithSeed(baseline, flag, seeds[n]).value, WithSeed(candidate, flag, seeds[n]).value;
      WithSeedIsArgv(baseline, flag, seeds[n]);
      WithSeedIsArgv(candidate, flag, seeds[n]);
      RowSound(seeds[n], b, c);
    }
  }

  lemma ArgvOfIsArgv(value: Value)
    requires ArgvOf(value).Ok?
    ensures IsArgv(ArgvOf(value).value)
  {
  }

  lemma FlagNotEmpty(config: Config)
    requires Valid(config) && SeedFlag in config
    ensures FlagOf(config) != ""
  {
    hide SeedList, ArePairs;
    StripEmpty(config[SeedFlag].text);
  }

  lemma StripEmpty(text: string)
    ensures Strip(text) == "" ==> Blank(text)
  {
    TrimRightBlank(text);
    TrimLeftBlank(TrimRight(text));
  }

  lemma {:induction false} TrimLeftBlank(text: string)
    ensures TrimLeft(text) == "" ==> Blank(text)
  {
    if text != "" && IsSpace(text[0]) {
      TrimLeftBlank(text[1..]);
      assert text == [text[0]] + text[1..];
    }
  }

  lemma {:induction false} TrimRightBlank(text: string)
    ensures Blank(TrimRight(text)) ==> Blank(text)
  {
    if text != "" && IsSpace(text[|text| - 1]) {
      TrimRightBlank(text[..|text| - 1]);
      assert text == text[..|text| - 1] + [text[|text| - 1]];
    }
  }

  /** A compact declaration is being expanded into pairs. */
  predicate Expands(config: Config) {
    Valid(config) && PairsIn(config) == [] && DeclaredSeeds(config).values != []
  }

  lemma SeedListDistinct(value: Value)
    requires SeedList(value).Ok?
    ensures DistinctInts(SeedList(value).value)
  {
  }

  lemma DeclaredSeedsDistinct(config: Config)
    requires Valid(config)
    ensures DistinctInts(DeclaredSeeds(config).values)
  {
    hide ArePairs, SeedList, IsWord, AreRefs;
    if SeedsKey in config { SeedListDistinct(config[SeedsKey]); }
    if ProtocolSeeds(config).Some? { SeedListDistinct(ProtocolSeeds(config).value); }
  }

  lemma NormalizeAt(config: Config, key: Key)
    requires Normalize(config).Ok?
    ensures Valid(config) && PairsOf(config).Ok?
    ensures Get(Normalize(config).value, key)
         == NormalValue(config, PairsOf(config).value, DeclaredSeeds(config), PolicyOf(config), key)
  {
    hide Valid, PairsOf, DeclaredSeeds, PolicyOf, Normal, NormalValue;
    NormalAt(config, PairsOf(config).value, DeclaredSeeds(config), PolicyOf(config), key);
  }

  lemma NormalPairs(config: Config)
    requires Normalize(config).Ok?
    ensures Valid(config) && PairsOf(config).Ok?
    ensures Get(Normalize(config).value, Pairs)
         == if PairsOf(config).value == [] then None else Some(List(PairsOf(config).value))
  {
    hide Valid, PairsOf, DeclaredSeeds, PolicyOf, Normalize;
    NormalizeAt(config, Pairs);
  }

  lemma ExpandsTo(config: Config)
    requires Expands(config) && PairsOf(config).Ok?
    ensures SeedFlag in config && BaseCommand(config, true).Ok? && BaseCommand(config, false).Ok?
    ensures PairsOf(config) == Expand(DeclaredSeeds(config).values, BaseCommand(config, false).value,
                                      BaseCommand(config, true).value, FlagOf(config))
  {
    hide Valid, DeclaredSeeds, Expand;
  }

  /** The pairs of an accepted compact declaration, before they are stored. */
  lemma ExpandedPairs(config: Config)
    requires Expands(config) && PairsOf(config).Ok?
    ensures SeedFlag in config && BaseCommand(config, true).Ok? && BaseCommand(config, false).Ok?
    ensures var rows, seeds := PairsOf(config).value, DeclaredSeeds(config).values;
      && |rows| == |seeds|
      && forall i :: 0 <= i < |rows| ==>
           && IsRow(rows[i]) && RowSeed(rows[i]) == seeds[i]
           && WithSeed(BaseCommand(config, false).value, FlagOf(config), seeds[i]) == Ok(RowCommand(rows[i], false))
           && WithSeed(BaseCommand(config, true).value, FlagOf(config), seeds[i]) == Ok(RowCommand(rows[i], true))
  {
    ExpandsTo(config);
    FlagNotEmpty(config);
    BaseCommandIsArgv(config);
    hide Valid, DeclaredSeeds, Expand, WithSeed, IsRow, RowSeed, RowCommand, FlagOf, BaseCommand;
    ExpandSound(DeclaredSeeds(config).values, BaseCommand(config, false).value, BaseCommand(config, true).value,
                FlagOf(config));
  }

  lemma SameSeeds(rows: seq<Value>, seeds: seq<int>)
    requires |rows| == |seeds| && DistinctInts(seeds)
    requires forall i :: 0 <= i < |rows| ==> IsRow(rows[i]) && RowSeed(rows[i]) == seeds[i]
    ensures ArePairs(List(rows)) && RowSeeds(rows) == seeds
  {
    hide IsRow, RowSeed;
  }

  /** An accepted compact declaration becomes one valid pair per declared seed, in order. */
  lemma OnePairPerSeed(config: Config)
    requires Expands(config) && Normalize(config).Ok?
    ensures var normalized, seeds := Normalize(config).value, DeclaredSeeds(config).values;
      && Pairs in normalized && ArePairs(normalized[Pairs]) && RowSeeds(normalized[Pairs].items) == seeds
      && SeedFlag in config && BaseCommand(config, true).Ok? && BaseCommand(config, false).Ok?
      && forall i :: 0 <= i < |seeds| ==>
           && WithSeed(BaseCommand(config, false).value, FlagOf(config), seeds[i])
              == Ok(RowCommand(normalized[Pairs].items[i], false))
           && WithSeed(BaseCommand(config, true).value, FlagOf(config), seeds[i])
              == Ok(RowCommand(normalized[Pairs].items[i], true))
  {
    hide Valid, DeclaredSeeds, WithSeed, IsRow, RowSeed, RowCommand, FlagOf, BaseCommand, PairsOf, Normalize;
    NormalPairs(config);
    ExpandedPairs(config);
    DeclaredSeedsDistinct(config);
    SameSeeds(PairsOf(config).value, DeclaredSeeds(config).values);
  }

  lemma BaseCommandIsArgv(config: Config)
    ensures forall candidate :: BaseCommand(config, candidate).Ok? ==> IsArgv(BaseCommand(config, candidate).value)
  {
    forall candidate | BaseCommand(config, candidate).Ok? ensures IsArgv(BaseCommand(config, candidate).value) {
      if !candidate && Baseline in config && config[Baseline].Dict? && Command in config[Baseline].entries {
        ArgvOfIsArgv(config[Baseline].entries[Command]);
      } else {
        ArgvOfIsArgv(config[Command]);
      }
    }
  }

  // ---------------------------------------------------------------------------------------------
  // Idempotence
  // ---------------------------------------------------------------------------------------------

  lemma PolicyFixed(policy: string)
    requires IsPolicy(policy)
    ensures Policy(Str_(policy)) == policy
  {
    StripNothing(policy);
    LowerNothing(policy);
  }

  lemma PolicyNormal(config: Config)
    requires Valid(config)
    ensures IsPolicy(PolicyOf(config)) && Policy(Str_(PolicyOf(config))) == PolicyOf(config)
  {
    assert IsPolicy(PolicyOf(config)) by { hide SeedList, ArePairs, Policy, AreRefs, IsWord; }
    hide *;
    PolicyFixed(PolicyOf(config));
  }

  lemma NormalPairsValid(config: Config)
    requires Normalize(config).Ok?
    ensures Valid(config) && PairsOf(config).Ok? && ArePairs(List(PairsOf(config).value))
  {
    NormalPairs(config);
    hide Normalize, SeedList, AreRefs, IsWord, Policy, IsPolicy, DeclaredSeeds;
    if PairsIn(config) != [] {
    } else if DeclaredSeeds(config).values != [] {
      ExpandedPairs(config);
      DeclaredSeedsDistinct(config);
      SameSeeds(PairsOf(config).value, DeclaredSeeds(config).values);
    } else {
      NoRows();
    }
  }

  lemma NoRows()
    ensures ArePairs(List([]))
  {
  }

  /** The keys a normalisation settles, and the ones it leaves alone. */
  ghost predicate Settles(config: Config, n: Config, pairs: seq<Value>, policy: string) {
    && !HasCompact(n) && PairsIn(n) == pairs && (Pairs in n <==> pairs != [])
    && Get(n, BaselinePolicy) == Some(Str_(policy))
    && ProtocolSeedReason in n
    && Get(n, Protocol) == Get(config, Protocol)
    && Get(n, BaselineRef) == Get(config, BaselineRef)
    && Get(n, Command) == Get(config, Command)
    && !NeedsControl(n, pairs, policy)
  }

  lemma NormalSettles(config: Config)
    requires Normalize(config).Ok?
    ensures Valid(config) && PairsOf(config).Ok?
    ensures Settles(config, Normalize(config).value, PairsOf(config).value, PolicyOf(config))
  {
    hide Valid, PairsOf, DeclaredSeeds, PolicyOf, IsArgvValue, Normalize, FlagOf, BoundValue;
    NormalPairs(config);
    NormalizeAt(config, SeedsKey);
    NormalizeAt(config, SeedCount);
    NormalizeAt(config, SeedFlag);
    NormalizeAt(config, BaselinePolicy);
    NormalizeAt(config, ProtocolSeedReason);
    NormalizeAt(config, Baseline);
    NormalizeUntouched(config, Protocol);
    NormalizeUntouched(config, BaselineRef);
    NormalizeUntouched(config, Command);
  }

  lemma NormalizeUntouched(config: Config, key: Key)
    requires Normalize(config).Ok? && key !in ADDED && !Stripped(key)
    ensures Get(Normalize(config).value, key) == Get(config, key)
  {
    hide Valid, PairsOf, DeclaredSeeds, PolicyOf, Normalize;
    NormalizeAt(config, key);
  }

  lemma ProtocolSeedsSame(one: Config, other: Config)
    requires Get(one, Protocol) == Get(other, Protocol)
    ensures ProtocolSeeds(one) == ProtocolSeeds(other)
  {
  }

  lemma NormalValid(config: Config)
    requires Normalize(config).Ok?
    ensures Valid(Normalize(config).value)
  {
    var n := Normalize(config).value;
    NormalSettles(config);
    NormalPairsValid(config);
    PolicyNormal(config);
    ProtocolSeedsSame(n, config);
    hide Normalize, SeedList, ArePairs, AreRefs, IsWord, IsPolicy, Policy, PairsOf, NeedsControl, PolicyOf, ProtocolSeeds;
    assert BaselineRef in n ==> Get(n, BaselineRef) == Some(n[BaselineRef]) && Get(config, BaselineRef) == Some(n[BaselineRef]);
    assert Get(n, BaselinePolicy) == Some(n[BaselinePolicy]);
  }

  /** A settled declaration has no seeds left to expand. */
  lemma SettledSeeds(config: Config, n: Config, pairs: seq<Value>, policy: string)
    requires Settles(config, n, pairs, policy) && Valid(n) && Policy(Str_(policy)) == policy
    ensures DeclaredSeeds(n).values == [] && PairsOf(n) == Ok(pairs) && PolicyOf(n) == policy
  {
    hide Valid, SeedList, IsArgvValue, Expand;
  }

  lemma SettledFixed(config: Config, n: Config, pairs: seq<Value>, seeds: Seeds, policy: string)
    requires Settles(config, n, pairs, policy) && seeds.values == []
    ensures Normal(n, pairs, seeds, policy) == n
  {
    hide IsArgvValue, Normal, FlagOf;
    forall key ensures Get(Normal(n, pairs, seeds, policy), key) == Get(n, key) {
      NormalAt(n, pairs, seeds, policy, key);
    }
    SameConfig(Normal(n, pairs, seeds, policy), n);
  }

  /** Normalising a normalised declaration changes nothing. */
  lemma NormalizeIdempotent(config: Config)
    requires Normalize(config).Ok?
    ensures Normalize(Normalize(config).value) == Normalize(config)
  {
    hide Valid, PairsOf, DeclaredSeeds, PolicyOf, Settles, Normal, Policy;
    var n := Normalize(config).value;
    NormalSettles(config);
    NormalValid(config);
    PolicyNormal(config);
    SettledSeeds(config, n, PairsOf(config).value, PolicyOf(config));
    SettledFixed(config, n, PairsOf(config).value, DeclaredSeeds(n), PolicyOf(config));
  }

  // ---------------------------------------------------------------------------------------------
  // The seed check of execution_request
  // ---------------------------------------------------------------------------------------------

  /**
    The seed part of `execution_request` for one pair: the protocol records the pair's seed, and a
    retained flag must read the same seed from the pair's command. Command resolution is the identity.
  */
  function PairSeedCheck(row: Value, candidate: bool, flag: string): Result<int>
    requires IsRow(row)
  {
    if flag == "" then Ok(RowSeed(row))
    else
      var read := CommandSeed(RowCommand(row, candidate), flag);
      if read.Error? then Error(read.reason)
      else if read.value.Bound? && read.value.seed != RowSeed(row) then Error(Conflict)
      else Ok(RowSeed(row))
  }

  function RetainedFlag(config: Config): string {
    if ProtocolSeedFlag in config && config[ProtocolSeedFlag].Str_?
    then Strip(config[ProtocolSeedFlag].text) else ""
  }

  /** Expanded pairs never conflict; they pass exactly when the written number does not look like the flag. */
  lemma ExpandedPairsPass(config: Config, i: nat, candidate: bool)
    requires Expands(config) && Normalize(config).Ok? && i < |DeclaredSeeds(config).values|
    ensures var n, seed := Normalize(config).value, DeclaredSeeds(config).values[i];
      && Pairs in n && ArePairs(n[Pairs]) && i < |n[Pairs].items| && BaseCommand(config, candidate).Ok?
      && var check := PairSeedCheck(n[Pairs].items[i], candidate, RetainedFlag(n));
         && check != Error(Conflict)
         && (check == Ok(seed) <==> Writable(BaseCommand(config, candidate).value, FlagOf(config), seed))
         && (check.Error? ==> check.reason == AmbiguousFlag)
  {
    var n, seeds := Normalize(config).value, DeclaredSeeds(config).values;
    OnePairPerSeed(config);
    FlagNotEmpty(config);
    FlagRetained(config);
    hide Normalize, Valid, DeclaredSeeds, BaseCommand, WithSeed, CommandSeed, Writable, FlagOf, RetainedFlag, IsRow, RowCommand;
    assert RowSeeds(n[Pairs].items)[i] == seeds[i];
    SeedRoundTrip(BaseCommand(config, candidate).value, FlagOf(config), seeds[i]);
  }

  lemma FlagRetained(config: Config)
    requires Normalize(config).Ok? && SeedFlag in config
    ensures RetainedFlag(Normalize(config).value) == FlagOf(config)
  {
    hide Strip, PairsOf, DeclaredSeeds, PolicyOf, Normalize, SeedList, ArePairs;
    NormalizeAt(config, ProtocolSeedFlag);
    assert config[SeedFlag].Str_? by { hide PairsOf, DeclaredSeeds, SeedList, ArePairs; }
  }

  // ---------------------------------------------------------------------------------------------
  // Merging a design proposal
  // ---------------------------------------------------------------------------------------------

  const MERGED: seq<Key> := [Command, Cwd, TimeoutSec, ResultSchema, Pairs, SeedsKey,
                                SeedCount, SeedFlag, BaselinePolicy, BaselineRef]

  predicate Blocked(merged: Config, key: Key) {
    (key == Pairs && HasCompact(merged)) || (key in COMPACT && Pairs in merged)
  }

  function MergeKey(merged: Config, protocol: Config, key: Key): Config {
    if !Blocked(merged, key) && key !in merged && key in protocol then merged[key := protocol[key]] else merged
  }

  function MergeKeys(config: Config, protocol: Config, keys: seq<Key>): Config {
    if keys == [] then config
    else MergeKey(MergeKeys(config, protocol, keys[..|keys| - 1]), protocol, keys[|keys| - 1])
  }

  /** The two derived keys: a control command and the contract of the design. */
  function MergeDerived(merged: Config, protocol: Config): Config {
    var withBaseline :=
      if Baseline !in merged && BaselineCommand in protocol
      then merged[Baseline := Dict(map[Command := protocol[BaselineCommand], Label := Str_("baseline")])]
      else merged;
    if Protocol !in withBaseline && Contract in protocol && protocol[Contract].Dict?
    then withBaseline[Protocol := protocol[Contract]] else withBaseline
  }

  function Merge(config: Config, protocol: Option<Config>): Config {
    if protocol.None? then config else MergeDerived(MergeKeys(config, protocol.value, MERGED), protocol.value)
  }

  /** The adoption loop of `merge_execution_protocol`. */
  method AdoptKeys(config: Config, protocol: Config, keys: seq<Key>) returns (merged: Config)
    ensures merged == MergeKeys(config, protocol, keys)
  {
    merged := config;
    for i := 0 to |keys|
      invariant merged == MergeKeys(config, protocol, keys[..i])
    {
      assert keys[..i + 1][..i] == keys[..i];
      var key := keys[i];
      if key == Pairs && HasCompact(merged) {
        continue;
      }
      if key in COMPACT && Pairs in merged {
        continue;
      }
      if key !in merged && key in protocol {
        merged := merged[key := protocol[key]];
      }
    }
    assert keys[..|keys|] == keys;
  }

  /** `merge_execution_protocol`; no proposal stands for a protocol that is not a mapping. */
  method MergeExecutionProtocol(config: Config, protocol: Option<Config>) returns (merged: Config)
    ensures merged == Merge(config, protocol)
  {
    if protocol.None? { return config; }
    merged := AdoptKeys(config, protocol.value, MERGED);
    hide MergeKeys;
    if Baseline !in merged && BaselineCommand in protocol.value {
      merged := merged[Baseline := Dict(map[Command := protocol.value[BaselineCommand], Label := Str_("baseline")])];
    }
    if Protocol !in merged && Contract in protocol.value && protocol.value[Contract].Dict? {
      merged := merged[Protocol := protocol.value[Contract]];
    }
  }

  ghost predicate Extends(config: Config, merged: Config) {
    forall key :: key in config ==> key in merged && merged[key] == config[key]
  }

  ghost predicate Exclusive(config: Config) {
    !(Pairs in config && HasCompact(config))
  }

  lemma {:induction false} MergeKeysFacts(config: Config, protocol: Config, keys: seq<Key>)
    ensures var merged := MergeKeys(config, protocol, keys);
      && Extends(config, merged)
      && (Exclusive(config) ==> Exclusive(merged))
      && (forall key :: key in merged && key !in config ==> key in keys && key in protocol && merged[key] == protocol[key])
  {
    if keys != [] {
      MergeKeysFacts(config, protocol, keys[..|keys| - 1]);
      assert keys == keys[..|keys| - 1] + [keys[|keys| - 1]];
    }
  }

  /** Nothing left to adopt: every proposed key is configured, blocked or absent. */
  ghost predicate Settled(merged: Config, protocol: Config, keys: seq<Key>) {
    forall i :: 0 <= i < |keys| ==> MergeKey(merged, protocol, keys[i]) == merged
  }

  lemma {:induction false} SettledMerge(merged: Config, protocol: Config, keys: seq<Key>)
    requires Settled(merged, protocol, keys)
    ensures MergeKeys(merged, protocol, keys) == merged
  {
    hide MergeKey;
    if keys != [] { SettledMerge(merged, protocol, keys[..|keys| - 1]); }
  }

  lemma KeySettles(merged: Config, protocol: Config, key: Key, extra: Key)
    requires MergeKey(merged, protocol, key) == merged
    ensures MergeKey(MergeKey(merged, protocol, extra), protocol, key) == MergeKey(merged, protocol, extra)
  {
  }

  lemma {:induction false} MergeSettles(config: Config, protocol: Config, keys: seq<Key>)
    ensures Settled(MergeKeys(config, protocol, keys), protocol, keys)
  {
    if keys != [] {
      var n := |keys| - 1;
      var before := MergeKeys(config, protocol, keys[..n]);
      MergeSettles(config, protocol, keys[..n]);
      forall i | 0 <= i < n ensures MergeKey(MergeKey(before, protocol, keys[n]), protocol, keys[i])
          == MergeKey(before, protocol, keys[n]) {
        assert keys[..n][i] == keys[i];
        KeySettles(before, protocol, keys[i], keys[n]);
      }
      KeyTwice(before, protocol, keys[n]);
    }
  }

  lemma KeyTwice(merged: Config, protocol: Config, key: Key)
    ensures MergeKey(MergeKey(merged, protocol, key), protocol, key) == MergeKey(merged, protocol, key)
  {
  }

  lemma DerivedKeepsSettled(merged: Config, protocol: Config, keys: seq<Key>)
    requires Settled(merged, protocol, keys) && Baseline !in keys && Protocol !in keys
    ensures Settled(MergeDerived(merged, protocol), protocol, keys)
  {
    forall i | 0 <= i < |keys| ensures MergeKey(MergeDerived(merged, protocol), protocol, keys[i]) == MergeDerived(merged, protocol) {
      assert MergeKey(merged, protocol, keys[i]) == merged;
      assert keys[i] in keys;
    }
  }

  lemma DerivedTwice(merged: Config, protocol: Config)
    ensures MergeDerived(MergeDerived(merged, protocol), protocol) == MergeDerived(merged, protocol)
  {
  }

  /** The control a proposal amounts to: its baseline command under a label. */
  function ProposedControl(protocol: Config): Option<Value> {
    if BaselineCommand in protocol
    then Some(Dict(map[Command := protocol[BaselineCommand], Label := Str_("baseline")])) else None
  }

  /** The contract of a proposal, where it is a mapping. */
  function ProposedContract(protocol: Config): Option<Value> {
    if Contract in protocol && protocol[Contract].Dict? then Some(protocol[Contract]) else None
  }

  lemma DerivedFacts(merged: Config, protocol: Config)
    ensures Extends(merged, MergeDerived(merged, protocol))
    ensures Exclusive(merged) ==> Exclusive(MergeDerived(merged, protocol))
    ensures forall key :: key in MergeDerived(merged, protocol) && key != Baseline && key != Protocol ==> key in merged
    ensures Get(MergeDerived(merged, protocol), Baseline)
         == if Baseline in merged then Get(merged, Baseline) else ProposedControl(protocol)
    ensures Get(MergeDerived(merged, protocol), Protocol)
         == if Protocol in merged then Get(merged, Protocol) else ProposedContract(protocol)
  {
  }

  /** Explicit configuration wins: no configured key changes, and what is added comes from the proposal. */
  lemma MergeKeepsConfigured(config: Config, protocol: Option<Config>)
    ensures Extends(config, Merge(config, protocol))
    ensures Exclusive(config) ==> Exclusive(Merge(config, protocol))
    ensures protocol.Some? ==>
      forall key :: key in Merge(config, protocol) && key !in config && key != Baseline && key != Protocol ==>
        key in MERGED && key in protocol.value && Merge(config, protocol)[key] == protocol.value[key]
  {
    if protocol.Some? {
      MergeKeysFacts(config, protocol.value, MERGED);
      DerivedFacts(MergeKeys(config, protocol.value, MERGED), protocol.value);
      hide MergeKeys, MergeDerived, Exclusive;
    }
  }

  /** The control and the contract come from the configuration, and otherwise from the proposal. */
  lemma MergeDerivesControl(config: Config, protocol: Config)
    ensures Get(Merge(config, Some(protocol)), Baseline)
         == if Baseline in config then Get(config, Baseline) else ProposedControl(protocol)
    ensures Get(Merge(config, Some(protocol)), Protocol)
         == if Protocol in config then Get(config, Protocol) else ProposedContract(protocol)
  {
    var merged := MergeKeys(config, protocol, MERGED);
    MergeKeysFacts(config, protocol, MERGED);
    DerivedFacts(merged, protocol);
    hide MergeKeys, MergeDerived, Exclusive, ProposedControl, ProposedContract;
    assert Baseline !in MERGED && Protocol !in MERGED;
    assert (Baseline in merged <==> Baseline in config) && (Protocol in merged <==> Protocol in config);
  }

  /** Merging the same proposal again changes nothing. */
  lemma MergeIdempotent(config: Config, protocol: Option<Config>)
    ensures Merge(Merge(config, protocol), protocol) == Merge(config, protocol)
  {
    if protocol.Some? {
      hide MergeKeys, MergeDerived, Settled;
      var merged := MergeKeys(config, protocol.value, MERGED);
      MergeSettles(config, protocol.value, MERGED);
      DerivedKeepsSettled(merged, protocol.value, MERGED);
      SettledMerge(MergeDerived(merged, protocol.value), protocol.value, MERGED);
      DerivedTwice(merged, protocol.value);
    }
  }
}
