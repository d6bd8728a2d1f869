/**
  Session root reservation in src/simple_ar/app/session_roots.py. The loop of one starter is a method over
  a directory; starters running at once are a state machine whose atomic step is one mkdir.
*/
module SessionRoots {
  import opened Collections
  import opened Wrappers
  import opened Texts
  import opened Integers

  // ---------------------------------------------------------------------------------------------
  // Names
  // ---------------------------------------------------------------------------------------------

  predicate Kept(c: char) {
    'a' <= c <= 'z' || '0' <= c <= '9'
  }

  function SkipOther(text: string): (rest: string)
    ensures |rest| <= |text| && (rest == "" || Kept(rest[0]))
  {
    if text == "" || Kept(text[0]) then text else SkipOther(text[1..])
  }

  /** re.sub(r"[^a-z0-9]+", "-", text) */
  function Dashed(text: string): string
    decreases |text|
  {
    if text == "" then ""
    else if Kept(text[0]) then [text[0]] + Dashed(text[1..])
    else "-" + Dashed(SkipOther(text[1..]))
  }

  function StripDashes(text: string): string
    decreases |text|
  {
    if text != "" && text[0] == '-' then StripDashes(text[1..])
    else if text != "" && text[|text| - 1] == '-' then StripDashes(text[..|text| - 1])
    else text
  }

  /** `_slug` */
  function Slug(value: string): string {
    var normalized := StripDashes(Dashed(Lower(value)));
    var short := if |normalized| > 80 then normalized[..80] else normalized;
    if short == "" then "research-topic" else short
  }

  function BaseName(stamp: string, topic: string): string {
    stamp + "-" + Slug(topic)
  }

  /** The name tried after `k` failures; the first suffix is 02. */
  function Candidate(base: string, k: nat): string {
    if k == 0 then base else base + "-" + Padded(k + 1)
  }

  // ---------------------------------------------------------------------------------------------
  // Slugs
  // ---------------------------------------------------------------------------------------------

  predicate SlugChar(c: char) {
    Kept(c) || c == '-'
  }

  /** Kept characters and single dashes between them. */
  predicate DashSeparated(text: string) {
    && (forall i :: 0 <= i < |text| ==> SlugChar(text[i]))
    && (forall i :: 0 <= i < |text| - 1 ==> text[i] != '-' || text[i + 1] != '-')
  }

  lemma {:induction false} DashedSeparates(text: string)
    ensures DashSeparated(Dashed(text))
    ensures text != "" && Kept(text[0]) ==> Dashed(text) != "" && Dashed(text)[0] == text[0]
    decreases |text|
  {
    if text != "" {
      if Kept(text[0]) {
        DashedSeparates(text[1..]);
      } else {
        DashedSeparates(SkipOther(text[1..]));
      }
    }
  }

  lemma {:induction false} StripDashesSeparates(text: string)
    requires DashSeparated(text)
    ensures DashSeparated(StripDashes(text)) && |StripDashes(text)| <= |text|
    ensures StripDashes(text) != "" ==> StripDashes(text)[0] != '-' && StripDashes(text)[|StripDashes(text)| - 1] != '-'
    decreases |text|
  {
    if text != "" && text[0] == '-' {
      StripDashesSeparates(text[1..]);
    } else if text != "" && text[|text| - 1] == '-' {
      StripDashesSeparates(text[..|text| - 1]);
    }
  }

  /**
    A slug is a plain directory name of 1 to 80 characters: letters, digits and single dashes, with no
    dash at the front, and one at the end only where the cut at 80 characters leaves it.
  */
  lemma SlugIsName(value: string)
    ensures var slug := Slug(value);
      && 1 <= |slug| <= 80 && slug[0] != '-' && (slug[|slug| - 1] == '-' ==> |slug| == 80)
      && (forall i :: 0 <= i < |slug| ==> 'a' <= slug[i] <= 'z' || '0' <= slug[i] <= '9' || slug[i] == '-')
      && forall i :: 0 <= i && i + 1 < |slug| ==> slug[i] != '-' || slug[i + 1] != '-'
  {
    hide Lower, Dashed, StripDashes, DashSeparated;
    DashedSeparates(Lower(value));
    StripDashesSeparates(Dashed(Lower(value)));
    var normalized := StripDashes(Dashed(Lower(value)));
    if |normalized| > 80 {
      CutSeparates(normalized, 80);
    } else if normalized == "" {
      DefaultSeparates();
    }
    SeparatedIs(Slug(value));
  }

  lemma SeparatedIs(text: string)
    requires DashSeparated(text)
    ensures forall i :: 0 <= i < |text| ==> 'a' <= text[i] <= 'z' || '0' <= text[i] <= '9' || text[i] == '-'
    ensures forall i :: 0 <= i && i + 1 < |text| ==> text[i] != '-' || text[i + 1] != '-'
  {
  }

  lemma CutSeparates(text: string, n: nat)
    requires DashSeparated(text) && n <= |text|
    ensures DashSeparated(text[..n])
  {
  }

  lemma DefaultSeparates()
    ensures DashSeparated("research-topic")
  {
  }

  // ---------------------------------------------------------------------------------------------
  // The words of a slug
  // ---------------------------------------------------------------------------------------------

  /** Letters a to z and digits only, at least one. */
  predicate IsWord(text: string) {
    text != "" && forall i :: 0 <= i < |text| ==> 'a' <= text[i] <= 'z' || '0' <= text[i] <= '9'
  }

  /** None of them. */
  predicate IsGap(text: string) {
    forall i :: 0 <= i < |text| ==> !('a' <= text[i] <= 'z') && !('0' <= text[i] <= '9')
  }

  /** Words with something else between any two of them. */
  predicate Alternate(words: seq<string>, gaps: seq<string>) {
    && |words| == |gaps| + 1 && (forall i :: 0 <= i < |words| ==> IsWord(words[i]))
    && forall i :: 0 <= i < |gaps| ==> gaps[i] != "" && IsGap(gaps[i])
  }

  function Interleaved(words: seq<string>, gaps: seq<string>): string
    requires |words| == |gaps| + 1
  {
    if gaps == [] then words[0] else words[0] + gaps[0] + Interleaved(words[1..], gaps[1..])
  }

  function Dashes(words: seq<string>): string
    requires words != []
  {
    if |words| == 1 then words[0] else words[0] + "-" + Dashes(words[1..])
  }

  lemma {:induction false} DashedWord(word: string, rest: string)
    requires forall i :: 0 <= i < |word| ==> Kept(word[i])
    ensures Dashed(word + rest) == word + Dashed(rest)
  {
    if word == "" {
      assert word + rest == rest;
    } else {
      DashedWord(word[1..], rest);
      assert (word + rest)[1..] == word[1..] + rest;
      hide SkipOther;
    }
  }

  lemma {:induction false} SkipsGap(gap: string, rest: string)
    requires IsGap(gap) && (rest == "" || Kept(rest[0]))
    ensures SkipOther(gap + rest) == rest
  {
    if gap == "" {
      assert gap + rest == rest;
    } else {
      SkipsGap(gap[1..], rest);
      assert (gap + rest)[1..] == gap[1..] + rest;
    }
  }

  lemma DashedGap(gap: string, rest: string)
    requires gap != "" && IsGap(gap) && (rest == "" || Kept(rest[0]))
    ensures Dashed(gap + rest) == "-" + Dashed(rest)
  {
    hide SkipOther, Dashed;
    GapFirst(gap, rest);
    SkipsGap(gap[1..], rest);
    DashedOther(gap + rest);
  }

  lemma GapFirst(gap: string, rest: string)
    requires gap != "" && IsGap(gap)
    ensures !Kept((gap + rest)[0]) && (gap + rest)[1..] == gap[1..] + rest && IsGap(gap[1..])
  {
  }

  lemma DashedOther(text: string)
    requires text != "" && !Kept(text[0])
    ensures Dashed(text) == "-" + Dashed(SkipOther(text[1..]))
  {
    hide SkipOther;
  }

  lemma FirstKept(words: seq<string>, gaps: seq<string>, rest: string)
    requires Alternate(words, gaps)
    ensures Interleaved(words, gaps) != "" && Kept((Interleaved(words, gaps) + rest)[0])
  {
    assert IsWord(words[0]);
  }

  function DashFor(gap: string): string {
    if gap == "" then "" else "-"
  }

  lemma AlternateRest(words: seq<string>, gaps: seq<string>)
    requires Alternate(words, gaps) && gaps != []
    ensures Alternate(words[1..], gaps[1..]) && IsWord(words[0]) && gaps[0] != "" && IsGap(gaps[0])
  {
    hide IsWord, IsGap;
  }

  lemma Behind(word: string, gap: string, more: string, tail: string)
    ensures word + gap + more + tail == word + (gap + (more + tail))
  {
  }

  lemma DashedTail(word: string, tail: string)
    requires IsWord(word) && IsGap(tail)
    ensures Dashed(word + tail) == word + DashFor(tail)
  {
    WordKept(word);
    DashedNothing();
    hide Dashed;
    DashedWord(word, tail);
    if tail != "" {
      DashedGap(tail, "");
      assert tail + "" == tail;
    }
  }

  lemma {:induction false} DashedWords(words: seq<string>, gaps: seq<string>, tail: string)
    requires Alternate(words, gaps) && IsGap(tail)
    ensures Dashed(Interleaved(words, gaps) + tail) == Dashes(words) + DashFor(tail)
  {
    hide Dashed, Kept, IsWord, IsGap;
    if gaps == [] {
      hide DashFor;
      DashedTail(words[0], tail);
    } else {
      var more := Interleaved(words[1..], gaps[1..]) + tail;
      AlternateRest(words, gaps);
      Behind(words[0], gaps[0], Interleaved(words[1..], gaps[1..]), tail);
      DashedWords(words[1..], gaps[1..], tail);
      FirstKept(words[1..], gaps[1..], tail);
      WordKept(words[0]);
      DashedWord(words[0], gaps[0] + more);
      DashedGap(gaps[0], more);
    }
  }

  lemma WordKept(word: string)
    ensures IsWord(word) ==> forall i :: 0 <= i < |word| ==> Kept(word[i])
  {
  }

  lemma DashedNothing()
    ensures Dashed("") == ""
  {
  }

  lemma {:induction false} DashesEnds(words: seq<string>)
    requires words != [] && forall i :: 0 <= i < |words| ==> IsWord(words[i])
    ensures var text := Dashes(words); text != "" && text[0] != '-' && text[|text| - 1] != '-'
  {
    assert IsWord(words[0]);
    if |words| > 1 { DashesEnds(words[1..]); }
  }

  lemma StripBackDash(text: string, back: string)
    requires text != "" && text[0] != '-' && text[|text| - 1] != '-' && (back == "" || back == "-")
    ensures StripDashes(text + back) == text
  {
    if back == "-" {
      assert (text + back)[..|text + back| - 1] == text;
    } else {
      assert text + back == text;
    }
  }

  lemma StripOuterDashes(text: string, front: string, back: string)
    requires text != "" && text[0] != '-' && text[|text| - 1] != '-'
    requires (front == "" || front == "-") && (back == "" || back == "-")
    ensures StripDashes(front + text + back) == text
  {
    StripBackDash(text, back);
    Regroup(front, text, back);
    if front == "-" {
      assert (front + (text + back))[1..] == text + back;
    } else {
      assert front + (text + back) == text + back;
    }
  }

  lemma SlugFrom(value: string, normalized: string)
    requires StripDashes(Dashed(Lower(value))) == normalized != ""
    ensures Slug(value) == if |normalized| <= 80 then normalized else normalized[..80]
  {
    hide Dashed, Lower, StripDashes;
  }

  lemma DashedLead(lead: string, text: string)
    requires IsGap(lead) && text != "" && Kept(text[0])
    ensures Dashed(lead + text) == DashFor(lead) + Dashed(text)
  {
    if lead == "" {
      assert lead + text == text;
    } else {
      hide Dashed;
      DashedGap(lead, text);
    }
  }

  lemma DashForIs(gap: string)
    ensures DashFor(gap) == "" || DashFor(gap) == "-"
  {
  }

  lemma Regroup(a: string, b: string, c: string)
    ensures a + (b + c) == a + b + c
  {
  }

  /** A slug is the words of the lower-cased topic, joined by single dashes and cut at 80 characters. */
  lemma SlugOfWords(value: string, lead: string, words: seq<string>, gaps: seq<string>, tail: string)
    requires Alternate(words, gaps) && IsGap(lead) && IsGap(tail)
    requires Lower(value) == lead + (Interleaved(words, gaps) + tail)
    ensures var all := Dashes(words); Slug(value) == if |all| <= 80 then all else all[..80]
  {
    DashedWords(words, gaps, tail);
    DashesEnds(words);
    FirstKept(words, gaps, tail);
    hide Dashed, Lower, StripDashes, Dashes, Interleaved, Alternate, IsGap, Kept, Slug;
    var text, all := Interleaved(words, gaps) + tail, Dashes(words);
    DashedLead(lead, text);
    DashForIs(lead);
    DashForIs(tail);
    Regroup(DashFor(lead), all, DashFor(tail));
    StripOuterDashes(all, DashFor(lead), DashFor(tail));
    SlugFrom(value, all);
  }

  /** A topic without words has a fixed slug. */
  lemma SlugOfNothing(value: string)
    requires IsGap(Lower(value))
    ensures Slug(value) == "research-topic"
  {
    var text := Lower(value);
    DashedNothing();
    if text != "" {
      DashedGap(text, "");
      assert text + "" == text;
      assert "-" + "" == "-";
      assert "-"[1..] == "";
    }
    hide Dashed, Lower;
  }

  /** The first name is time stamp and slug; the k-th retry appends k + 1 with at least two digits. */
  lemma NamesExactly(stamp: string, topic: string, k: nat)
    ensures var first := stamp + ("-" + Slug(topic));
      Candidate(BaseName(stamp, topic), k)
      == if k == 0 then first
         else if k < 9 then first + "-0" + Decimal(k + 1) else first + "-" + Decimal(k + 1)
  {
    hide Slug, Decimal;
    var base := BaseName(stamp, topic);
    assert base == stamp + ("-" + Slug(topic));
    if 0 < k < 9 {
      PaddedIs(k + 1);
      assert base + "-" + ("0" + Decimal(k + 1)) == base + "-0" + Decimal(k + 1);
    } else if k >= 9 {
      PaddedIs(k + 1);
    }
  }

  lemma PaddedIs(n: nat)
    ensures Padded(n) == if n < 10 then "0" + Decimal(n) else Decimal(n)
  {
  }

  // ---------------------------------------------------------------------------------------------
  // Candidates differ
  // ---------------------------------------------------------------------------------------------

  lemma CandidateInjective(base: string, i: nat, j: nat)
    requires Candidate(base, i) == Candidate(base, j)
    ensures i == j
  {
    hide Padded, ParseDigits;
    var dash := base + "-";
    if i != 0 && j != 0 {
      assert (dash + Padded(i + 1))[|dash|..] == Padded(i + 1) && (dash + Padded(j + 1))[|dash|..] == Padded(j + 1);
      ParsePadded(i + 1);
      ParsePadded(j + 1);
    }
  }

  /** The names tried in the first `n` attempts. */
  function Tried(base: string, n: nat): (names: set<string>)
    ensures forall name :: name in names <==> exists k: nat :: k < n && name == Candidate(base, k)
  {
    if n == 0 then {} else Tried(base, n - 1) + {Candidate(base, n - 1)}
  }

  lemma {:induction false} TriedCounts(base: string, n: nat)
    ensures |Tried(base, n)| == n
  {
    if n > 0 {
      TriedCounts(base, n - 1);
      hide Candidate;
      if Candidate(base, n - 1) in Tried(base, n - 1) {
        var k: nat :| k < n - 1 && Candidate(base, n - 1) == Candidate(base, k);
        CandidateInjective(base, n - 1, k);
      }
    }
  }

  ghost predicate TakenBelow(taken: set<string>, base: string, n: nat) {
    forall k: nat :: k < n ==> Candidate(base, k) in taken
  }

  /** Only so many candidates can be taken as there are names. */
  lemma TakenBelowFits(taken: set<string>, base: string, n: nat)
    requires TakenBelow(taken, base, n)
    ensures n <= |taken|
  {
    hide Candidate;
    TriedCounts(base, n);
    SubsetSize(Tried(base, n), taken);
  }

  // ---------------------------------------------------------------------------------------------
  // One starter
  // ---------------------------------------------------------------------------------------------

  /** How many candidates are taken before the first free one. */
  ghost function FreeFrom(taken: set<string>, base: string, k: nat): (r: nat)
    requires TakenBelow(taken, base, k)
    ensures TakenBelow(taken, base, r) && Candidate(base, r) !in taken
    decreases |taken| - k
  {
    TakenBelowFits(taken, base, k);
    if Candidate(base, k) !in taken then k
    else
      TakenBelowFits(taken, base, k + 1);
      FreeFrom(taken, base, k + 1)
  }

  ghost function FirstFree(taken: set<string>, base: string): string {
    Candidate(base, FreeFrom(taken, base, 0))
  }

  /** The first free candidate is the only one with every candidate before it taken. */
  lemma FirstFreeIs(taken: set<string>, base: string, k: nat)
    requires TakenBelow(taken, base, k) && Candidate(base, k) !in taken
    ensures FirstFree(taken, base) == Candidate(base, k)
  {
    var r := FreeFrom(taken, base, 0);
    hide Candidate;
    assert TakenBelow(taken, base, r) && Candidate(base, r) !in taken;
    assert !(r < k);
    assert !(k < r);
  }

  class Directory {
    var names: set<string>

    constructor (names: set<string>)
      ensures this.names == names
    {
      this.names := names;
    }

    /** mkdir: not made when the name exists. */
    method Mkdir(name: string) returns (made: bool)
      modifies this
      ensures made <==> name !in old(names)
      ensures names == old(names) + {name}
    {
      made := name !in names;
      names := names + {name};
    }
  }

  method NewResearchSessionRoot(parent: Directory, stamp: string, topic: string) returns (candidate: string)
    modifies parent
    ensures candidate == FirstFree(old(parent.names), BaseName(stamp, topic))
    ensures candidate !in old(parent.names) && parent.names == old(parent.names) + {candidate}
  {
    hide Padded, BaseName;
    var base := BaseName(stamp, topic);
    candidate := base;
    var suffix := 2;
    var made := parent.Mkdir(candidate);
    while !made
      invariant 2 <= suffix && candidate == Candidate(base, suffix - 2)
      invariant TakenBelow(old(parent.names), base, if made then suffix - 2 else suffix - 1)
      invariant made ==> candidate !in old(parent.names) && parent.names == old(parent.names) + {candidate}
      invariant !made ==> parent.names == old(parent.names)
      decreases |old(parent.names)| + 2 - suffix, !made
    {
      TakenBelowFits(old(parent.names), base, suffix - 1);
      candidate := base + "-" + Padded(suffix);
      suffix := suffix + 1;
      assert candidate == Candidate(base, suffix - 2);
      made := parent.Mkdir(candidate);
    }
    FirstFreeIs(old(parent.names), base, suffix - 2);
  }

  // ---------------------------------------------------------------------------------------------
  // Starters at once
  // ---------------------------------------------------------------------------------------------

  datatype Starter = Starter(base: string, tries: nat, root: Option<string>)

  datatype System = System(taken: set<string>, starters: seq<Starter>)

  /** One mkdir of a starter, or a name that something else creates under the output root. */
  datatype Action = Try(i: nat) | Occupy(name: string)

  function Initial(taken: set<string>, bases: seq<string>): System {
    System(taken, seq(|bases|, i requires 0 <= i < |bases| => Starter(bases[i], 0, None)))
  }

  function Attempt(taken: set<string>, starter: Starter): Starter {
    var candidate := Candidate(starter.base, starter.tries);
    Starter(starter.base, starter.tries + 1, if candidate in taken then None else Some(candidate))
  }

  function Apply(s: System, a: Action): Option<System> {
    match a
    case Try(i) =>
      if i < |s.starters| && s.starters[i].root.None? then
        Some(System(s.taken + {Candidate(s.starters[i].base, s.starters[i].tries)},
                    s.starters[i := Attempt(s.taken, s.starters[i])]))
      else None
    case Occupy(name) => Some(s.(taken := s.taken + {name}))
  }

  function Exec(taken: set<string>, bases: seq<string>, actions: seq<Action>): Option<System> {
    if actions == [] then Some(Initial(taken, bases))
    else
      var before := Exec(taken, bases, actions[..|actions| - 1]);
      if before.None? then None else Apply(before.value, actions[|actions| - 1])
  }

  /** A run begins with no attempt made, and at any point something else may take any name. */
  lemma OthersInterfere(taken: set<string>, bases: seq<string>, actions: seq<Action>, name: string)
    requires Exec(taken, bases, actions).Some?
    ensures var none: seq<Action> := [];
      var start := Exec(taken, bases, none);
      && start.Some? && start.value.taken == taken && |start.value.starters| == |bases|
      && forall i :: 0 <= i < |bases| ==> start.value.starters[i] == Starter(bases[i], 0, None)
    ensures var s, next := Exec(taken, bases, actions).value, Exec(taken, bases, actions + [Occupy(name)]);
      next.Some? && next.value.taken == s.taken + {name} && next.value.starters == s.starters
  {
    assert (actions + [Occupy(name)])[..|actions|] == actions;
  }

  /** A starter has only failed on names that exist; its root is the last name it tried, and was free. */
  ghost predicate StarterInv(initial: set<string>, taken: set<string>, starter: Starter) {
    TakenBelow(taken, starter.base, starter.tries)
    && (starter.root.Some? ==>
          starter.tries > 0 && starter.root.value == Candidate(starter.base, starter.tries - 1)
          && starter.root.value !in initial)
  }

  ghost predicate Inv(initial: set<string>, s: System) {
    && initial <= s.taken
    && (forall i :: 0 <= i < |s.starters| ==> StarterInv(initial, s.taken, s.starters[i]))
    && RootsDiffer(s.starters)
  }

  ghost predicate RootsDiffer(starters: seq<Starter>) {
    forall i, j :: 0 <= i < j < |starters| && starters[i].root.Some? ==> starters[i].root != starters[j].root
  }

  lemma StarterInvMonotone(initial: set<string>, taken: set<string>, more: set<string>, starter: Starter)
    requires StarterInv(initial, taken, starter) && taken <= more
    ensures StarterInv(initial, more, starter)
  {
    hide Candidate;
  }

  lemma AttemptKeeps(initial: set<string>, taken: set<string>, starter: Starter)
    requires StarterInv(initial, taken, starter) && starter.root.None? && initial <= taken
    ensures StarterInv(initial, taken + {Candidate(starter.base, starter.tries)}, Attempt(taken, starter))
  {
    hide Candidate;
  }

  lemma RootTaken(initial: set<string>, taken: set<string>, starter: Starter)
    requires StarterInv(initial, taken, starter) && starter.root.Some?
    ensures starter.root.value in taken
  {
    hide Candidate;
  }

  lemma StepKeepsInv(initial: set<string>, s: System, a: Action)
    requires Inv(initial, s) && Apply(s, a).Some?
    ensures Inv(initial, Apply(s, a).value)
  {
    var s' := Apply(s, a).value;
    hide Candidate;
    if a.Try? {
      AttemptKeeps(initial, s.taken, s.starters[a.i]);
      forall j | 0 <= j < |s.starters| && j != a.i && s.starters[j].root.Some?
        ensures s.starters[j].root.value in s.taken
      {
        RootTaken(initial, s.taken, s.starters[j]);
      }
    }
    hide StarterInv;
    forall j | 0 <= j < |s'.starters| ensures StarterInv(initial, s'.taken, s'.starters[j]) {
      if a.Occupy? || j != a.i { StarterInvMonotone(initial, s.taken, s'.taken, s.starters[j]); }
    }
  }

  lemma {:induction false} ReachableInv(taken: set<string>, bases: seq<string>, actions: seq<Action>)
    requires Exec(taken, bases, actions).Some?
    ensures Inv(taken, Exec(taken, bases, actions).value)
    ensures |Exec(taken, bases, actions).value.starters| == |bases|
    ensures forall i :: 0 <= i < |bases| ==> Exec(taken, bases, actions).value.starters[i].base == bases[i]
    decreases |actions|
  {
    hide Inv, Candidate;
    if actions == [] {
      InitialInv(taken, bases);
    } else {
      var front := actions[..|actions| - 1];
      ReachableInv(taken, bases, front);
      StepKeepsInv(taken, Exec(taken, bases, front).value, actions[|actions| - 1]);
    }
  }

  lemma InitialInv(taken: set<string>, bases: seq<string>)
    ensures Inv(taken, Initial(taken, bases))
  {
  }

  /** In every interleaving the reserved directories are new and pairwise distinct, and exist. */
  lemma RootsReserved(taken: set<string>, bases: seq<string>, actions: seq<Action>, i: nat, j: nat)
    requires Exec(taken, bases, actions).Some? && i < j < |bases|
    ensures var s := Exec(taken, bases, actions).value;
      && |s.starters| == |bases|
      && (s.starters[i].root.Some? ==> s.starters[i].root.value in s.taken - taken)
      && (s.starters[i].root.Some? && s.starters[j].root.Some? ==> s.starters[i].root != s.starters[j].root)
  {
    hide Exec, Candidate;
    ReachableInv(taken, bases, actions);
    var s := Exec(taken, bases, actions).value;
    assert StarterInv(taken, s.taken, s.starters[i]);
  }

  // ---------------------------------------------------------------------------------------------
  // How often a starter tries
  // ---------------------------------------------------------------------------------------------

  function Tries(actions: seq<Action>, i: nat): nat
    decreases |actions|
  {
    if actions == [] then 0
    else Tries(actions[..|actions| - 1], i) + if actions[|actions| - 1] == Try(i) then 1 else 0
  }

  lemma {:induction false} TriesCounted(taken: set<string>, bases: seq<string>, actions: seq<Action>, i: nat)
    requires Exec(taken, bases, actions).Some? && i < |bases|
    ensures i < |Exec(taken, bases, actions).value.starters|
    ensures Exec(taken, bases, actions).value.starters[i].tries == Tries(actions, i)
    decreases |actions|
  {
    hide Candidate;
    if actions != [] { TriesCounted(taken, bases, actions[..|actions| - 1], i); }
  }

  /** The names taken by others that this starter can run into. */
  ghost function Collisions(s: System, i: nat): set<string>
    requires i < |s.starters|
  {
    set name | name in s.taken && Some(name) != s.starters[i].root && IsCandidate(s.starters[i].base, name)
  }

  ghost predicate IsCandidate(base: string, name: string) {
    exists k: nat :: name == Candidate(base, k)
  }

  /**
    In every run a starter makes at most one more attempt than there are names of others that can collide
    with its candidates, and an unfinished one has made no more than that many. It can always try again.
  */
  lemma RetriesBounded(taken: set<string>, bases: seq<string>, actions: seq<Action>, i: nat)
    requires Exec(taken, bases, actions).Some? && i < |bases|
    ensures var s := Exec(taken, bases, actions).value;
      && i < |s.starters|
      && Tries(actions, i) <= |Collisions(s, i)| + (if s.starters[i].root.Some? then 1 else 0)
      && (s.starters[i].root.None? <==> Exec(taken, bases, actions + [Try(i)]).Some?)
  {
    hide Candidate;
    ReachableInv(taken, bases, actions);
    TriesCounted(taken, bases, actions, i);
    assert (actions + [Try(i)])[..|actions|] == actions;
    hide Exec;
    var s := Exec(taken, bases, actions).value;
    assert StarterInv(taken, s.taken, s.starters[i]);
    FailuresCollide(taken, s, i);
  }

  lemma FailuresCollide(initial: set<string>, s: System, i: nat)
    requires i < |s.starters| && StarterInv(initial, s.taken, s.starters[i])
    ensures s.starters[i].tries <= |Collisions(s, i)| + (if s.starters[i].root.Some? then 1 else 0)
  {
    hide Candidate;
    var base, tries := s.starters[i].base, s.starters[i].tries;
    var failed := if s.starters[i].root.Some? then tries - 1 else tries;
    TriedCounts(base, failed);
    forall name | name in Tried(base, failed) ensures name in Collisions(s, i) {
      var k: nat :| k < failed && name == Candidate(base, k);
      if s.starters[i].root == Some(name) { CandidateInjective(base, k, tries - 1); }
    }
    SubsetSize(Tried(base, failed), Collisions(s, i));
  }

  /** Names created by something else during the run. */
  function Occupied(actions: seq<Action>): set<string>
    decreases |actions|
  {
    if actions == [] then {}
    else
      var last := actions[|actions| - 1];
      Occupied(actions[..|actions| - 1]) + if last.Occupy? then {last.name} else {}
  }

  function RootsOf(starters: seq<Starter>): set<string> {
    set i | 0 <= i < |starters| && starters[i].root.Some? :: starters[i].root.value
  }

  lemma {:induction false} RootsCount(starters: seq<Starter>)
    ensures |RootsOf(starters)| <= |starters|
  {
    if starters != [] {
      var front, last := starters[..|starters| - 1], starters[|starters| - 1];
      RootsCount(front);
      var own: set<string> := if last.root.Some? then {last.root.value} else {};
      RootsSplit(starters, own);
      hide RootsOf;
      assert |RootsOf(front) + own| <= |RootsOf(front)| + |own|;
    }
  }

  lemma RootIn(starters: seq<Starter>, i: nat)
    requires i < |starters| && starters[i].root.Some?
    ensures starters[i].root.value in RootsOf(starters)
  {
  }

  lemma RootsSplit(starters: seq<Starter>, own: set<string>)
    requires starters != []
    requires var last := starters[|starters| - 1]; own == if last.root.Some? then {last.root.value} else {}
    ensures RootsOf(starters) == RootsOf(starters[..|starters| - 1]) + own
  {
    var n := |starters| - 1;
    forall name ensures name in RootsOf(starters) <==> name in RootsOf(starters[..n]) + own {
      if name in RootsOf(starters) {
        var i :| 0 <= i <= n && starters[i].root == Some(name);
        if i < n { assert starters[..n][i] == starters[i]; }
      }
      if name in RootsOf(starters[..n]) {
        var i :| 0 <= i < n && starters[..n][i].root == Some(name);
        assert starters[i].root == Some(name);
      }
      if name in own { assert starters[n].root == Some(name); }
    }
  }

  ghost predicate Accounted(taken: set<string>, occupied: set<string>, s: System) {
    s.taken == taken + occupied + RootsOf(s.starters)
  }

  lemma StepRoots(s: System, i: nat)
    requires Apply(s, Try(i)).Some?
    ensures var candidate := Candidate(s.starters[i].base, s.starters[i].tries);
      RootsOf(Apply(s, Try(i)).value.starters)
      == RootsOf(s.starters) + if candidate in s.taken then {} else {candidate}
  {
    hide Candidate;
    var candidate := Candidate(s.starters[i].base, s.starters[i].tries);
    var after := Attempt(s.taken, s.starters[i]);
    RootsUpdated(s.starters, i, after);
  }

  lemma RootsUpdated(starters: seq<Starter>, i: nat, after: Starter)
    requires i < |starters| && starters[i].root.None?
    ensures RootsOf(starters[i := after])
         == RootsOf(starters) + if after.root.Some? then {after.root.value} else {}
  {
    var updated := starters[i := after];
    forall name ensures name in RootsOf(updated) <==> name in RootsOf(starters) || after.root == Some(name) {
      if name in RootsOf(starters) {
        var k :| 0 <= k < |starters| && starters[k].root == Some(name);
        assert updated[k].root == Some(name);
      }
      if after.root == Some(name) { assert updated[i].root == Some(name); }
      if name in RootsOf(updated) {
        var k :| 0 <= k < |starters| && updated[k].root == Some(name);
        if k != i { assert starters[k].root == Some(name); }
      }
    }
  }

  lemma StepAccounted(taken: set<string>, occupied: set<string>, s: System, a: Action)
    requires Apply(s, a).Some? && Accounted(taken, occupied, s)
    ensures Accounted(taken, occupied + (if a.Occupy? then {a.name} else {}), Apply(s, a).value)
  {
    hide Candidate, RootsOf;
    if a.Try? { StepRoots(s, a.i); }
  }

  /** The names present are those there before, those something else created and the reserved ones. */
  lemma {:induction false} NamesAccounted(taken: set<string>, bases: seq<string>, actions: seq<Action>)
    requires Exec(taken, bases, actions).Some?
    ensures Accounted(taken, Occupied(actions), Exec(taken, bases, actions).value)
    decreases |actions|
  {
    hide Inv, Candidate, RootsOf;
    if actions == [] {
      NoRoots(taken, bases);
    } else {
      hide Accounted, Apply;
      var front := actions[..|actions| - 1];
      NamesAccounted(taken, bases, front);
      StepAccounted(taken, Occupied(front), Exec(taken, bases, front).value, actions[|actions| - 1]);
    }
  }

  lemma NoRoots(taken: set<string>, bases: seq<string>)
    ensures RootsOf(Initial(taken, bases).starters) == {}
  {
  }

  /** Where nothing but the starters makes names of its kind, a starter tries at most once per starter. */
  lemma StartersAlone(taken: set<string>, bases: seq<string>, actions: seq<Action>, i: nat)
    requires Exec(taken, bases, actions).Some? && i < |bases|
    requires forall name <- taken + Occupied(actions) :: !IsCandidate(bases[i], name)
    ensures Tries(actions, i) <= |bases|
  {
    hide Exec, Candidate, IsCandidate, RootsOf, Occupied, Tries;
    ReachableInv(taken, bases, actions);
    RetriesBounded(taken, bases, actions, i);
    NamesAccounted(taken, bases, actions);
    var s := Exec(taken, bases, actions).value;
    var root := s.starters[i].root;
    var own: set<string> := if root.Some? then {root.value} else {};
    if root.Some? { RootIn(s.starters, i); }
    assert Collisions(s, i) + own <= RootsOf(s.starters);
    assert Collisions(s, i) !! own;
    RootsCount(s.starters);
    SubsetSize(Collisions(s, i) + own, RootsOf(s.starters));
  }

  // ---------------------------------------------------------------------------------------------
  // Every interleaving is a serial order
  // ---------------------------------------------------------------------------------------------

  /** What a run leaves: the names taken and each starter's directory. */
  datatype Outcome = Outcome(taken: set<string>, roots: seq<Option<string>>)

  function OutcomeOf(s: System): Outcome {
    Outcome(s.taken, seq(|s.starters|, i requires 0 <= i < |s.starters| => s.starters[i].root))
  }

  /** The whole loop of a starter at once, as `NewResearchSessionRoot` runs it alone. */
  ghost function Whole(bases: seq<string>, o: Outcome, a: Action): Outcome
    requires |o.roots| == |bases|
  {
    match a
    case Try(i) =>
      if i < |bases| then
        var root := FirstFree(o.taken, bases[i]);
        Outcome(o.taken + {root}, o.roots[i := Some(root)])
      else o
    case Occupy(name) => o.(taken := o.taken + {name})
  }

  ghost function Serial(taken: set<string>, bases: seq<string>, order: seq<Action>): (o: Outcome)
    ensures |o.roots| == |bases|
    decreases |order|
  {
    if order == [] then Outcome(taken, seq(|bases|, _ => None))
    else Whole(bases, Serial(taken, bases, order[..|order| - 1]), order[|order| - 1])
  }

  /** The attempt finds its name taken. */
  predicate Fails(s: System, a: Action) {
    a.Try? && a.i < |s.starters| && Candidate(s.starters[a.i].base, s.starters[a.i].tries) in s.taken
  }

  /** The run without its failed attempts. */
  function Successes(taken: set<string>, bases: seq<string>, actions: seq<Action>): seq<Action>
    requires Exec(taken, bases, actions).Some?
    decreases |actions|
  {
    if actions == [] then []
    else
      var front, last := actions[..|actions| - 1], actions[|actions| - 1];
      Successes(taken, bases, front) + if Fails(Exec(taken, bases, front).value, last) then [] else [last]
  }

  lemma StepIsWhole(initial: set<string>, bases: seq<string>, s: System, a: Action)
    requires Inv(initial, s) && Apply(s, a).Some? && |s.starters| == |bases|
    requires forall i :: 0 <= i < |bases| ==> s.starters[i].base == bases[i]
    ensures OutcomeOf(Apply(s, a).value) == if Fails(s, a) then OutcomeOf(s) else Whole(bases, OutcomeOf(s), a)
  {
    hide Candidate;
    var s' := Apply(s, a).value;
    match a {
      case Occupy(name) => assert OutcomeOf(s').roots == OutcomeOf(s).roots;
      case Try(i) =>
        var starter := s.starters[i];
        var candidate := Candidate(starter.base, starter.tries);
        assert StarterInv(initial, s.taken, starter);
        if candidate in s.taken {
          assert s.taken + {candidate} == s.taken;
          assert OutcomeOf(s').roots == OutcomeOf(s).roots;
        } else {
          FirstFreeIs(s.taken, starter.base, starter.tries);
          assert OutcomeOf(s').roots == OutcomeOf(s).roots[i := Some(candidate)];
        }
    }
  }

  /**
    Every interleaving leaves what a serial order leaves in which each finished starter runs its whole loop
    alone, at the moment of its last attempt.
  */
  lemma {:induction false} InterleavingIsSerial(taken: set<string>, bases: seq<string>, actions: seq<Action>)
    requires Exec(taken, bases, actions).Some?
    ensures OutcomeOf(Exec(taken, bases, actions).value) == Serial(taken, bases, Successes(taken, bases, actions))
    decreases |actions|
  {
    hide Inv, Apply, Whole, Candidate, Fails;
    if actions == [] {
      assert OutcomeOf(Initial(taken, bases)).roots == seq(|bases|, _ => None);
    } else {
      var front, last := actions[..|actions| - 1], actions[|actions| - 1];
      var s := Exec(taken, bases, front).value;
      InterleavingIsSerial(taken, bases, front);
      ReachableInv(taken, bases, front);
      StepIsWhole(taken, bases, s, last);
      var order := Successes(taken, bases, front);
      if !Fails(s, last) {
        assert (order + [last])[..|order|] == order;
      } else {
        assert order + [] == order;
      }
    }
  }
}
