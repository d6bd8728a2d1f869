/**
  The heading renumberer of benchmark/survey_bench/adapter.py. Its regular expressions are written out
  as functions, with ASCII digits, letters and word characters.
*/
module Headings {
  import opened Wrappers
  import opened Texts
  import opened Integers

  // ---------------------------------------------------------------------------------------------
  // Headings and titles
  // ---------------------------------------------------------------------------------------------

  type Level = l: nat | 2 <= l <= 6 witness 2

  datatype Heading = Heading(level: Level, title: string)

  function Hashes(n: nat): (h: string)
    ensures |h| == n
  {
    if n == 0 then "" else "#" + Hashes(n - 1)
  }

  function CountHashes(line: string): (n: nat)
    ensures n <= |line|
  {
    if line != "" && line[0] == '#' then 1 + CountHashes(line[1..]) else 0
  }

  /** ^(#{2,6})\s+(.*\S)\s*$ */
  function ParseHeading(line: string): Option<Heading> {
    var level := CountHashes(line);
    var rest := line[level..];
    if 2 <= level <= 6 && rest != "" && IsSpace(rest[0]) && Strip(rest) != "" then Some(Heading(level, Strip(rest)))
    else None
  }

  predicate StartsWithDigit(text: string) {
    text != "" && IsDigit(text[0])
  }

  function SkipDigits(text: string): (rest: string)
    ensures |rest| <= |text|
    ensures StartsWithDigit(text) ==> |rest| < |text|
  {
    if StartsWithDigit(text) then SkipDigits(text[1..]) else text
  }

  /** (?:\.\d+)* */
  function SkipGroups(text: string): (rest: string)
    ensures |rest| <= |text|
    decreases |text|
  {
    if text != "" && text[0] == '.' && StartsWithDigit(text[1..]) then SkipGroups(SkipDigits(text[1..])) else text
  }

  /** What follows \d+(?:\.\d+)*\.? */
  function AfterNumber(text: string): (rest: string)
    ensures |rest| <= |text|
  {
    var rest := SkipGroups(SkipDigits(text));
    if rest != "" && rest[0] == '.' then rest[1..] else rest
  }

  /** `_strip_heading_number` */
  function StripNumber(title: string): string {
    var rest := AfterNumber(title);
    if StartsWithDigit(title) && rest != "" && IsSpace(rest[0]) then Strip(rest) else Strip(title)
  }

  predicate WordChar(c: char) {
    'a' <= c <= 'z' || 'A' <= c <= 'Z' || '0' <= c <= '9' || c == '_'
  }

  /** (?i)^word\b */
  predicate StartsWord(title: string, word: string) {
    |word| <= |title| && Lower(title[..|word|]) == word && (|title| == |word| || !WordChar(title[|word|]))
  }

  /** `_is_non_outline_heading` */
  predicate IsAside(title: string) {
    StartsWord(title, "abstract") || StartsWord(title, "executive summary") || StartsWord(title, "summary")
    || StartsWord(title, "key takeaway") || StartsWord(title, "key takeaways")
  }

  datatype Kind = Plain | References | Aside(level: Level, title: string) | Counted(level: Level, title: string)

  function Classify(line: string): Kind {
    match ParseHeading(line)
    case None => Plain
    case Some(Heading(level, raw)) =>
      var title := StripNumber(raw);
      if StartsWord(title, "references") then References
      else if IsAside(title) then Aside(level, title)
      else Counted(level, title)
  }

  // ---------------------------------------------------------------------------------------------
  // Counters and numbers
  // ---------------------------------------------------------------------------------------------

  /** The seven counters, of which positions 2 to 6 are used. */
  type Counters = c: seq<nat> | |c| == 7 witness [0, 0, 0, 0, 0, 0, 0]

  const ZERO: Counters := [0, 0, 0, 0, 0, 0, 0]

  /** Count a heading and reset everything below it. */
  function Bump(c: Counters, level: Level): (r: Counters)
    ensures forall i :: 0 <= i < 7 ==> r[i] == if i < level then c[i] else if i == level then c[i] + 1 else 0
  {
    seq(7, i requires 0 <= i < 7 => if i < level then c[i] else if i == level then c[i] + 1 else 0)
  }

  /** The components of the number shown: an unopened ancestor shows as one. */
  function Shown(c: Counters, level: Level): (v: seq<nat>)
    ensures |v| == level - 1
  {
    seq(level - 1, i requires 0 <= i < level - 1 => if c[i + 2] == 0 then 1 else c[i + 2])
  }

  function Dotted(v: seq<nat>): (text: string)
    requires v != []
    ensures StartsWithDigit(text)
  {
    if |v| == 1 then Decimal(v[0]) else Decimal(v[0]) + "." + Dotted(v[1..])
  }

  /** The output for a line of this kind. */
  function Emit(c: Counters, kind: Kind, line: string): string {
    match kind
    case Plain => line
    case References => "## References"
    case Aside(level, title) => Hashes(level) + " " + title
    case Counted(level, title) => Hashes(level) + " " + Dotted(Shown(Bump(c, level), level)) + " " + title
  }

  function Next(c: Counters, kind: Kind): Counters {
    if kind.Counted? then Bump(c, kind.level) else c
  }

  function Kinds(lines: seq<string>): (kinds: seq<Kind>)
    ensures |kinds| == |lines|
  {
    seq(|lines|, i requires 0 <= i < |lines| => Classify(lines[i]))
  }

  function RenumberAs(c: Counters, kinds: seq<Kind>, lines: seq<string>): (out: seq<string>)
    requires |kinds| == |lines|
    ensures |out| == |lines|
    decreases |lines|
  {
    if lines == [] then []
    else [Emit(c, kinds[0], lines[0])] + RenumberAs(Next(c, kinds[0]), kinds[1..], lines[1..])
  }

  function Renumber(lines: seq<string>): (out: seq<string>)
    ensures |out| == |lines|
  {
    RenumberAs(ZERO, Kinds(lines), lines)
  }

  /** ^#\s+\S+ */
  predicate IsTitleLine(line: string) {
    |line| > 1 && line[0] == '#' && IsSpace(line[1]) && !Blank(line[1..])
  }

  predicate HasTitle(lines: seq<string>) {
    exists i :: 0 <= i < |lines| && IsTitleLine(lines[i])
  }

  function WithTitle(lines: seq<string>, topic: string): seq<string> {
    if HasTitle(lines) then lines else ["# " + topic, ""] + lines
  }

  /** The counter update of one heading, in place. */
  method BumpInPlace(counters: array<nat>, level: Level)
    requires counters.Length == 7
    modifies counters
    ensures counters[..] == Bump(old(counters[..]), level)
  {
    counters[level] := counters[level] + 1;
    for j := level + 1 to 7
      invariant forall k :: 0 <= k < 7 ==>
        counters[k] == if k < level then old(counters[k]) else if k == level then old(counters[k]) + 1
                       else if k < j then 0 else old(counters[k])
    {
      counters[j] := 0;
    }
  }

  /** The loop of `normalize_markdown_headings`: a counter array and an output list. */
  method NormalizeLines(text: seq<string>, topic: string) returns (normalized: seq<string>)
    ensures normalized == Renumber(WithTitle(text, topic))
  {
    hide Classify, Dotted, Shown, Bump, IsTitleLine, RenumberAs, Hashes;
    var lines := text;
    if !HasTitle(lines) { lines := ["# " + topic, ""] + lines; }
    ghost var kinds := Kinds(lines);
    var counters := new nat[7](_ => 0);
    assert counters[..] == ZERO;
    normalized := [];
    for i := 0 to |lines|
      invariant normalized + RenumberAs(counters[..], kinds[i..], lines[i..]) == Renumber(lines)
    {
      ghost var before, done := counters[..], normalized;
      RenumberStep(before, kinds, lines, i);
      ghost var line := Emit(before, kinds[i], lines[i]);
      match Classify(lines[i]) {
        case Plain => normalized := normalized + [lines[i]];
        case References => normalized := normalized + ["## References"];
        case Aside(level, title) => normalized := normalized + [Hashes(level) + " " + title];
        case Counted(level, title) =>
          BumpInPlace(counters, level);
          normalized := normalized + [Hashes(level) + " " + Dotted(Shown(counters[..], level)) + " " + title];
      }
      assert normalized == done + [line] && counters[..] == Next(before, kinds[i]);
      MoveOver(done, line, RenumberAs(counters[..], kinds[i + 1..], lines[i + 1..]));
    }
    RenumberNothing(counters[..], kinds[|lines|..], lines[|lines|..]);
  }

  lemma MoveOver(done: seq<string>, line: string, rest: seq<string>)
    ensures done + [line] + rest == done + ([line] + rest)
  {
  }

  lemma RenumberNothing(c: Counters, kinds: seq<Kind>, lines: seq<string>)
    requires lines == [] && kinds == []
    ensures RenumberAs(c, kinds, lines) == []
  {
  }

  lemma RenumberStep(c: Counters, kinds: seq<Kind>, lines: seq<string>, i: nat)
    requires |kinds| == |lines| && i < |lines|
    ensures RenumberAs(c, kinds[i..], lines[i..])
         == [Emit(c, kinds[i], lines[i])] + RenumberAs(Next(c, kinds[i]), kinds[i + 1..], lines[i + 1..])
  {
    hide Emit, Next;
    assert lines[i..][1..] == lines[i + 1..] && kinds[i..][1..] == kinds[i + 1..];
  }

  // ---------------------------------------------------------------------------------------------
  // A normalised line classifies as before
  // ---------------------------------------------------------------------------------------------

  lemma StripEnds(text: string)
    ensures Strip(text) != "" ==> Trim(Strip(text))
    ensures text != "" && !IsSpace(text[|text| - 1]) ==> Strip(text) != ""
  {
    var right := TrimRight(text);
    var left := TrimLeft(right);
    if left != "" { assert left[|left| - 1] == right[|right| - 1]; }
    if text != "" && !IsSpace(text[|text| - 1]) { SomethingLeft(text); }
  }

  lemma {:induction false} SomethingLeft(text: string)
    requires text != "" && !IsSpace(text[|text| - 1])
    ensures TrimLeft(text) != ""
  {
    if IsSpace(text[0]) { SomethingLeft(text[1..]); }
  }

  lemma {:induction false} CountIs(line: string, n: nat)
    requires n <= |line| && (forall i :: 0 <= i < n ==> line[i] == '#')
    requires n == |line| || line[n] != '#'
    ensures CountHashes(line) == n
  {
    if n > 0 { CountIs(line[1..], n - 1); }
  }

  lemma {:induction false} CountMeans(line: string)
    ensures forall i :: 0 <= i < CountHashes(line) ==> line[i] == '#'
    ensures CountHashes(line) == |line| || line[CountHashes(line)] != '#'
  {
    if line != "" && line[0] == '#' { CountMeans(line[1..]); }
  }

  lemma {:induction false} CountEmitted(level: nat, rest: string)
    requires rest != "" && rest[0] != '#'
    ensures CountHashes(Hashes(level) + rest) == level && (Hashes(level) + rest)[level..] == rest
  {
    if level > 0 {
      CountEmitted(level - 1, rest);
      assert (Hashes(level) + rest)[1..] == Hashes(level - 1) + rest;
    }
  }

  lemma ParseEmitted(level: Level, title: string)
    requires Trim(title)
    ensures ParseHeading(Hashes(level) + " " + title) == Some(Heading(level, title))
  {
    hide Strip;
    assert Hashes(level) + " " + title == Hashes(level) + (" " + title);
    CountEmitted(level, " " + title);
    StripOneSpace(title);
  }

  lemma ParseIsTrim(line: string)
    ensures ParseHeading(line).Some? ==> Trim(ParseHeading(line).value.title)
  {
    hide Strip;
    StripEnds(line[CountHashes(line)..]);
  }

  predicate IsSuffix(text: string, rest: string) {
    |rest| <= |text| && rest == text[|text| - |rest|..]
  }

  lemma SuffixOfSuffix(text: string, middle: string, rest: string)
    requires IsSuffix(text, middle) && IsSuffix(middle, rest)
    ensures IsSuffix(text, rest)
  {
  }

  lemma FirstDropped(text: string)
    requires text != ""
    ensures IsSuffix(text, text[1..])
  {
  }

  lemma {:induction false} SkipDigitsSuffix(text: string)
    ensures IsSuffix(text, SkipDigits(text))
  {
    if StartsWithDigit(text) {
      SkipDigitsSuffix(text[1..]);
      hide IsSuffix;
      FirstDropped(text);
      SuffixOfSuffix(text, text[1..], SkipDigits(text[1..]));
    } else {
      assert text[0..] == text;
    }
  }

  lemma {:induction false} SkipGroupsSuffix(text: string)
    ensures IsSuffix(text, SkipGroups(text))
    decreases |text|
  {
    if text != "" && text[0] == '.' && StartsWithDigit(text[1..]) {
      var middle := SkipDigits(text[1..]);
      SkipDigitsSuffix(text[1..]);
      hide IsSuffix, SkipDigits;
      FirstDropped(text);
      SkipGroupsSuffix(middle);
      SuffixOfSuffix(text, text[1..], middle);
      SuffixOfSuffix(text, middle, SkipGroups(middle));
    }
  }

  /** A number is removed from the front only. */
  lemma AfterNumberSuffix(text: string)
    ensures IsSuffix(text, AfterNumber(text))
  {
    var digits := SkipDigits(text);
    SkipDigitsSuffix(text);
    hide IsSuffix, SkipDigits, SkipGroups;
    var rest := SkipGroups(digits);
    SkipGroupsSuffix(digits);
    SuffixOfSuffix(text, digits, rest);
    if rest != "" {
      FirstDropped(rest);
      SuffixOfSuffix(text, rest, rest[1..]);
    }
  }

  lemma StripNumberTrim(title: string)
    requires Trim(title)
    ensures Trim(StripNumber(title))
  {
    hide Strip, AfterNumber;
    var rest := AfterNumber(title);
    AfterNumberSuffix(title);
    StripEnds(title);
    StripEnds(rest);
    if rest != "" { assert rest[|rest| - 1] == title[|title| - 1]; }
  }

  lemma StripTrim(text: string)
    requires Trim(text)
    ensures Strip(text) == text
  {
    StripNothing(text);
  }

  lemma {:induction false} SkipExactly(digits: string, rest: string)
    requires forall i :: 0 <= i < |digits| ==> IsDigit(digits[i])
    requires !StartsWithDigit(rest)
    ensures SkipDigits(digits + rest) == rest
  {
    if digits == "" {
      assert digits + rest == rest;
    } else {
      assert (digits + rest)[1..] == digits[1..] + rest;
      SkipExactly(digits[1..], rest);
    }
  }

  lemma SkipGroupsDot(text: string)
    requires StartsWithDigit(text)
    ensures SkipGroups("." + text) == SkipGroups(SkipDigits(text))
  {
    assert ("." + text)[1..] == text;
  }

  lemma DottedIs(v: seq<nat>)
    requires v != []
    ensures Dotted(v) == Decimal(v[0]) + if |v| == 1 then "" else "." + Dotted(v[1..])
  {
    hide Decimal;
    if |v| == 1 { assert Decimal(v[0]) + "" == Decimal(v[0]); }
  }

  lemma Regroup(a: string, b: string, c: string)
    ensures a + b + c == a + (b + c)
  {
  }

  lemma SkipDot(digits: string, tail: string)
    requires StartsWithDigit(tail) && forall i :: 0 <= i < |digits| ==> IsDigit(digits[i])
    ensures SkipGroups(SkipDigits(digits + ("." + tail))) == SkipGroups(SkipDigits(tail))
  {
    SkipExactly(digits, "." + tail);
    SkipGroupsDot(tail);
  }

  lemma SkipNoGroup(rest: string)
    requires rest == "" || rest[0] != '.'
    ensures SkipGroups(rest) == rest
  {
  }

  /** A dotted number is skipped as a whole, up to what cannot continue it. */
  lemma {:induction false} SkipDotted(v: seq<nat>, rest: string)
    requires v != [] && (rest == "" || (!IsDigit(rest[0]) && rest[0] != '.'))
    ensures SkipGroups(SkipDigits(Dotted(v) + rest)) == rest
  {
    hide Decimal, SkipDigits, SkipGroups, Dotted, IsDigit;
    DottedIs(v);
    var head := Decimal(v[0]);
    if |v| == 1 {
      Regroup(head, "", rest);
      assert "" + rest == rest;
      assert Dotted(v) + rest == head + rest;
      SkipExactly(head, rest);
      SkipNoGroup(rest);
    } else {
      var tail := Dotted(v[1..]);
      SkipDotted(v[1..], rest);
      Regroup(head, "." + tail, rest);
      Regroup(".", tail, rest);
      assert Dotted(v) + rest == head + ("." + (tail + rest));
      SkipDot(head, tail + rest);
    }
  }

  lemma SpaceIsNeither(c: char)
    ensures IsSpace(c) ==> !IsDigit(c) && c != '.' && c != '#'
  {
  }

  lemma StripDotted(v: seq<nat>, title: string)
    requires v != [] && Trim(title)
    ensures StripNumber(Dotted(v) + " " + title) == title
  {
    hide Dotted, Strip, IsSpace;
    assert Dotted(v) + " " + title == Dotted(v) + (" " + title);
    BlankIsSpace();
    SkipDotted(v, " " + title);
    SpaceIsNeither(' ');
    StripOneSpace(title);
  }

  lemma BlankIsSpace()
    ensures IsSpace(' ')
  {
  }

  lemma DottedTrim(v: seq<nat>, title: string)
    requires v != [] && Trim(title)
    ensures Trim(Dotted(v) + " " + title)
  {
    DigitNotSpace(Dotted(v)[0]);
  }

  lemma DigitNotSpace(c: char)
    ensures IsDigit(c) ==> !IsSpace(c)
  {
  }

  lemma AsideStartsWithLetter(title: string)
    requires IsAside(title)
    ensures title != "" && !IsDigit(title[0])
  {
    AsideFirst(title, "abstract");
    AsideFirst(title, "executive summary");
    AsideFirst(title, "summary");
    AsideFirst(title, "key takeaway");
    AsideFirst(title, "key takeaways");
  }

  lemma AsideFirst(title: string, word: string)
    requires word != "" && 'a' <= word[0] <= 'z'
    ensures StartsWord(title, word) ==> title != "" && !IsDigit(title[0])
  {
    if StartsWord(title, word) { assert Lower(title[..|word|])[0] == LowerChar(title[0]); }
  }

  lemma ReferencesStay()
    ensures Classify("## References") == References
  {
    hide Classify;
    assert Hashes(2) == "#" + Hashes(1) && Hashes(1) == "#" + Hashes(0);
    assert "## References" == Hashes(2) + " " + "References";
    ReferenceTitle("References");
  }

  lemma ReferenceTitle(title: string)
    requires Trim(title) && !IsDigit(title[0])
    requires |title| == 10 && forall i :: 0 <= i < 10 ==> LowerChar(title[i]) == "references"[i]
    ensures Classify(Hashes(2) + " " + title) == References
  {
    hide ParseHeading, StripNumber;
    ParseEmitted(2, title);
    StripNumberIdle(title);
    assert title[..10] == title;
    LowerOf(title, "references");
  }

  lemma LowerOf(text: string, lower: string)
    requires |text| == |lower| && forall i :: 0 <= i < |text| ==> LowerChar(text[i]) == lower[i]
    ensures Lower(text) == lower
  {
  }

  /** A title classified once is classified the same again, on its own or behind a number. */
  function ClassifyTitle(level: Level, title: string): Kind {
    if StartsWord(title, "references") then References
    else if IsAside(title) then Aside(level, title)
    else Counted(level, title)
  }

  lemma ClassifyIs(line: string)
    ensures Classify(line) == match ParseHeading(line)
                              case None => Plain
                              case Some(h) => ClassifyTitle(h.level, StripNumber(h.title))
  {
    hide StripNumber, ParseHeading, StartsWord, IsAside;
  }

  /** The title a heading keeps has no spaces around it. */
  lemma TitleTrim(line: string)
    ensures Classify(line).Aside? || Classify(line).Counted? ==> Trim(Classify(line).title)
  {
    hide StripNumber, Strip, StartsWord, IsAside, Trim, ParseHeading, Classify;
    ClassifyIs(line);
    ParseIsTrim(line);
    if ParseHeading(line).Some? { StripNumberTrim(ParseHeading(line).value.title); }
  }

  lemma KindOfTitle(line: string)
    ensures Classify(line).Aside? ==> ClassifyTitle(Classify(line).level, Classify(line).title) == Classify(line)
                                      && IsAside(Classify(line).title)
    ensures Classify(line).Counted? ==> ClassifyTitle(Classify(line).level, Classify(line).title) == Classify(line)
  {
    ClassifyIs(line);
    hide StripNumber, ParseHeading, StartsWord, IsAside, Classify;
  }

  lemma StripNumberIdle(title: string)
    requires Trim(title) && !IsDigit(title[0])
    ensures StripNumber(title) == title
  {
    hide AfterNumber;
    StripTrim(title);
  }

  /** Renumbering a line changes its number only: level, title and role read back the same. */
  lemma EmitKeepsKind(c: Counters, line: string)
    ensures Classify(Emit(c, Classify(line), line)) == Classify(line)
  {
    TitleTrim(line);
    KindOfTitle(line);
    hide Classify, StripNumber, StartsWord, IsAside, ParseHeading, ClassifyTitle, Dotted, Trim;
    match Classify(line)
    case Plain =>
    case References => ReferencesStay();
    case Aside(level, title) =>
      ParseEmitted(level, title);
      AsideStartsWithLetter(title);
      StripNumberIdle(title);
      ClassifyIs(Hashes(level) + " " + title);
    case Counted(level, title) =>
      var v := Shown(Bump(c, level), level);
      DottedTrim(v, title);
      ParseEmitted(level, Dotted(v) + " " + title);
      assert Hashes(level) + " " + Dotted(v) + " " + title == Hashes(level) + " " + (Dotted(v) + " " + title);
      StripDotted(v, title);
      ClassifyIs(Hashes(level) + " " + (Dotted(v) + " " + title));
  }

  lemma RenumberFirst(c: Counters, lines: seq<string>)
    requires lines != []
    ensures Kinds(lines) == [Classify(lines[0])] + Kinds(lines[1..])
    ensures RenumberAs(c, Kinds(lines), lines)
         == [Emit(c, Classify(lines[0]), lines[0])]
            + RenumberAs(Next(c, Classify(lines[0])), Kinds(lines[1..]), lines[1..])
  {
    hide Classify, Emit, Next;
    assert Kinds(lines)[1..] == Kinds(lines[1..]);
  }

  lemma KindsFirst(line: string, rest: seq<string>)
    ensures Kinds([line] + rest) == [Classify(line)] + Kinds(rest)
  {
    hide Classify;
    assert ([line] + rest)[1..] == rest;
  }

  lemma {:induction false} RenumberKeepsKinds(c: Counters, lines: seq<string>)
    ensures Kinds(RenumberAs(c, Kinds(lines), lines)) == Kinds(lines)
    decreases |lines|
  {
    if lines != [] {
      hide Kinds, RenumberAs, Emit, Next, Classify;
      RenumberFirst(c, lines);
      EmitKeepsKind(c, lines[0]);
      RenumberKeepsKinds(Next(c, Classify(lines[0])), lines[1..]);
      KindsFirst(Emit(c, Classify(lines[0]), lines[0]),
        RenumberAs(Next(c, Classify(lines[0])), Kinds(lines[1..]), lines[1..]));
    }
  }

  lemma {:induction false} RenumberAsTwice(c: Counters, kinds: seq<Kind>, lines: seq<string>)
    requires |kinds| == |lines|
    ensures RenumberAs(c, kinds, RenumberAs(c, kinds, lines)) == RenumberAs(c, kinds, lines)
    decreases |lines|
  {
    if lines != [] {
      hide Next;
      RenumberAsTwice(Next(c, kinds[0]), kinds[1..], lines[1..]);
      assert Emit(c, kinds[0], Emit(c, kinds[0], lines[0])) == Emit(c, kinds[0], lines[0]);
      hide Emit;
      assert RenumberAs(c, kinds, lines)[1..] == RenumberAs(Next(c, kinds[0]), kinds[1..], lines[1..]);
    }
  }

  /** Renumbering renumbered lines changes nothing. */
  lemma RenumberIdempotent(lines: seq<string>)
    ensures Renumber(Renumber(lines)) == Renumber(lines)
  {
    hide Kinds, RenumberAs;
    RenumberKeepsKinds(ZERO, lines);
    RenumberAsTwice(ZERO, Kinds(lines), lines);
  }

  lemma {:induction false} RenumberAsAt(c: Counters, kinds: seq<Kind>, lines: seq<string>, i: nat)
    requires |kinds| == |lines| && i < |lines| && kinds[i] == Plain
    ensures RenumberAs(c, kinds, lines)[i] == lines[i]
    decreases |lines|
  {
    if i > 0 { RenumberAsAt(Next(c, kinds[0]), kinds[1..], lines[1..], i - 1); }
  }

  /** Lines that are not headings stay in place unchanged; headings keep place, level, title and role. */
  lemma LinesStay(lines: seq<string>, i: nat)
    requires i < |lines|
    ensures Classify(lines[i]) == Plain ==> Renumber(lines)[i] == lines[i]
    ensures Classify(Renumber(lines)[i]) == Classify(lines[i])
  {
    hide Classify, RenumberAs;
    var kinds := Kinds(lines);
    if kinds[i] == Plain { RenumberAsAt(ZERO, kinds, lines, i); }
    RenumberKeepsKinds(ZERO, lines);
    assert Kinds(Renumber(lines))[i] == kinds[i];
  }

  // ---------------------------------------------------------------------------------------------
  // Numbers in order
  // ---------------------------------------------------------------------------------------------

  /** The levels of the counted headings, in order. */
  function Levels(kinds: seq<Kind>): seq<Level> {
    if kinds == [] then []
    else (if kinds[0].Counted? then [kinds[0].level] else []) + Levels(kinds[1..])
  }

  /** The numbers these headings get. */
  function Numbers(c: Counters, levels: seq<Level>): (numbers: seq<seq<nat>>)
    ensures |numbers| == |levels|
    ensures forall i :: 0 <= i < |numbers| ==> numbers[i] != []
    decreases |levels|
  {
    if levels == [] then []
    else [Shown(Bump(c, levels[0]), levels[0])] + Numbers(Bump(c, levels[0]), levels[1..])
  }

  /** The number texts the output shows, in order. */
  function ShownNumbers(c: Counters, kinds: seq<Kind>): seq<string>
    decreases |kinds|
  {
    if kinds == [] then []
    else (if kinds[0].Counted? then [Dotted(Shown(Bump(c, kinds[0].level), kinds[0].level))] else [])
         + ShownNumbers(Next(c, kinds[0]), kinds[1..])
  }

  lemma {:induction false} ShownAreNumbers(c: Counters, kinds: seq<Kind>)
    ensures |ShownNumbers(c, kinds)| == |Levels(kinds)|
    ensures forall i :: 0 <= i < |Levels(kinds)| ==> ShownNumbers(c, kinds)[i] == Dotted(Numbers(c, Levels(kinds))[i])
    decreases |kinds|
  {
    if kinds != [] {
      hide Dotted, Shown, Bump;
      ShownAreNumbers(Next(c, kinds[0]), kinds[1..]);
      if kinds[0].Counted? {
        assert Levels(kinds)[0] == kinds[0].level && Levels(kinds)[1..] == Levels(kinds[1..]);
      } else {
        assert Levels(kinds) == Levels(kinds[1..]);
      }
    }
  }

  /** Lexicographic order; a proper prefix comes first. */
  predicate LexLess(a: seq<nat>, b: seq<nat>) {
    if b == [] then false
    else if a == [] then true
    else a[0] < b[0] || (a[0] == b[0] && LexLess(a[1..], b[1..]))
  }

  lemma {:induction false} LexTransitive(a: seq<nat>, b: seq<nat>, c: seq<nat>)
    requires LexLess(a, b) && LexLess(b, c)
    ensures LexLess(a, c)
  {
    if a != [] && a[0] == b[0] && b[0] == c[0] { LexTransitive(a[1..], b[1..], c[1..]); }
  }

  lemma {:induction false} LexIrreflexive(a: seq<nat>)
    ensures !LexLess(a, a)
  {
    if a != [] { LexIrreflexive(a[1..]); }
  }

  ghost predicate Increasing(numbers: seq<seq<nat>>) {
    forall i, j :: 0 <= i < j < |numbers| ==> LexLess(numbers[i], numbers[j])
  }

  /** A step back to a shallower level finds that level opened. */
  predicate StepOpen(c: Counters, previous: Level, level: Level) {
    level < previous ==> c[level] > 0
  }

  /** Every heading that is shallower than the one before it has its own level open; `c` are the counters after `previous`. */
  predicate Open(c: Counters, previous: Level, levels: seq<Level>)
    decreases |levels|
  {
    levels == [] || (StepOpen(c, previous, levels[0]) && Open(Bump(c, levels[0]), levels[0], levels[1..]))
  }

  /** Two vectors agreeing before position k compare there. */
  lemma {:induction false} LexAt(a: seq<nat>, b: seq<nat>, k: nat)
    requires k <= |a| && k < |b| && a[..k] == b[..k]
    ensures k == |a| || a[k] < b[k] ==> LexLess(a, b)
    ensures k < |a| && a[k] > b[k] ==> !LexLess(a, b)
  {
    if k > 0 {
      assert a[0] == a[..k][0] == b[0];
      assert a[1..][..k - 1] == a[..k][1..] == b[..k][1..] == b[1..][..k - 1];
      LexAt(a[1..], b[1..], k - 1);
    }
  }

  lemma {:induction false} PrefixNotLess(a: seq<nat>, b: seq<nat>)
    requires |b| <= |a| && a[..|b|] == b
    ensures !LexLess(a, b)
  {
    if b != [] {
      assert a[0] == a[..|b|][0];
      assert a[1..][..|b| - 1] == a[..|b|][1..];
      PrefixNotLess(a[1..], b[1..]);
    }
  }

  /** One heading after another: its number is greater exactly when the step is open. */
  lemma StepIncreases(c: Counters, previous: Level, level: Level)
    requires c[previous] > 0
    requires forall i :: previous < i < 7 ==> c[i] == 0
    ensures LexLess(Shown(c, previous), Shown(Bump(c, level), level)) <==> StepOpen(c, previous, level)
  {
    var a, b := Shown(c, previous), Shown(Bump(c, level), level);
    if level > previous {
      assert a == b[..previous - 1];
      LexAt(a, b, previous - 1);
    } else {
      assert a[..level - 2] == b[..level - 2];
      if c[level] > 0 {
        LexAt(a, b, level - 2);
      } else {
        assert a[..level - 1] == b;
        PrefixNotLess(a, b);
      }
    }
  }

  lemma {:induction false} NumbersExact(c: Counters, previous: Level, levels: seq<Level>)
    requires c[previous] > 0 && forall i :: previous < i < 7 ==> c[i] == 0
    ensures Increasing([Shown(c, previous)] + Numbers(c, levels)) <==> Open(c, previous, levels)
    decreases |levels|
  {
    hide LexLess, Shown;
    if levels != [] {
      var level := levels[0];
      var first, rest := Shown(c, previous), Numbers(c, levels);
      StepIncreases(c, previous, level);
      NumbersExact(Bump(c, level), level, levels[1..]);
      assert rest == [Shown(Bump(c, level), level)] + Numbers(Bump(c, level), levels[1..]);
      IncreasingCons(first, rest);
    } else {
      assert Numbers(c, levels) == [];
    }
  }

  lemma IncreasingCons(first: seq<nat>, rest: seq<seq<nat>>)
    requires rest != []
    ensures Increasing([first] + rest) <==> LexLess(first, rest[0]) && Increasing(rest)
  {
    hide LexLess;
    var all := [first] + rest;
    assert forall i :: 0 <= i < |rest| ==> all[i + 1] == rest[i];
    if Increasing(all) {
      assert LexLess(all[0], all[1]);
      forall i, j | 0 <= i < j < |rest| ensures LexLess(rest[i], rest[j]) { assert LexLess(all[i + 1], all[j + 1]); }
    }
    if LexLess(first, rest[0]) && Increasing(rest) {
      forall i, j | 0 <= i < j < |all| ensures LexLess(all[i], all[j]) {
        if i == 0 {
          if j > 1 { LexTransitive(first, rest[0], rest[j - 1]); }
        } else {
          assert LexLess(rest[i - 1], rest[j - 1]);
        }
      }
    }
  }

  /** No heading after the first climbs back to a level that was never opened. */
  predicate NeverClimbsToUnopened(levels: seq<Level>) {
    levels == [] || Open(Bump(ZERO, levels[0]), levels[0], levels[1..])
  }

  /** The emitted numbers increase strictly exactly when no heading climbs back to an unopened level. */
  lemma NumbersIncreaseExactly(levels: seq<Level>)
    ensures Increasing(Numbers(ZERO, levels)) <==> NeverClimbsToUnopened(levels)
  {
    hide Open, LexLess;
    if levels != [] {
      NumbersExact(Bump(ZERO, levels[0]), levels[0], levels[1..]);
      assert Numbers(ZERO, levels)
          == [Shown(Bump(ZERO, levels[0]), levels[0])] + Numbers(Bump(ZERO, levels[0]), levels[1..]);
    }
  }

  /** Every counted heading below level 2 has counted ancestors open at all levels between. */
  predicate Nested(c: Counters, levels: seq<Level>)
    decreases |levels|
  {
    levels == [] || ((forall a :: 2 <= a < levels[0] ==> c[a] > 0) && Nested(Bump(c, levels[0]), levels[1..]))
  }

  /** Proper nesting is enough. */
  lemma {:induction false} NestedIsOpen(c: Counters, previous: Level, levels: seq<Level>)
    requires (forall a :: 2 <= a <= previous ==> c[a] > 0) && Nested(c, levels)
    ensures Open(c, previous, levels)
    decreases |levels|
  {
    if levels != [] { NestedIsOpen(Bump(c, levels[0]), levels[0], levels[1..]); }
  }

  /** Numbers that differ look different. */
  lemma {:induction false} DottedInjective(v: seq<nat>, w: seq<nat>)
    requires v != [] && w != [] && Dotted(v) == Dotted(w)
    ensures v == w
  {
    DottedFirst(v);
    DottedFirst(w);
    hide Decimal, SkipDigits;
    var rest := SkipDigits(Dotted(v));
    assert Decimal(v[0]) == Dotted(v)[..|Dotted(v)| - |rest|] == Decimal(w[0]);
    ParseDecimal(v[0]);
    ParseDecimal(w[0]);
    if |v| > 1 && |w| > 1 {
      assert Dotted(v[1..]) == rest[1..] == Dotted(w[1..]);
      DottedInjective(v[1..], w[1..]);
    }
    assert v == [v[0]] + v[1..] && w == [w[0]] + w[1..];
  }

  lemma DottedFirst(v: seq<nat>)
    requires v != []
    ensures var rest := if |v| == 1 then "" else "." + Dotted(v[1..]);
      SkipDigits(Dotted(v)) == rest && Dotted(v) == Decimal(v[0]) + rest
  {
    hide Decimal;
    var rest := if |v| == 1 then "" else "." + Dotted(v[1..]);
    assert Decimal(v[0]) + "" == Decimal(v[0]);
    assert Dotted(v) == Decimal(v[0]) + rest;
    SkipExactly(Decimal(v[0]), rest);
  }

  /** In a properly nested document no two headings show the same number. */
  lemma NestedNumbersUnique(lines: seq<string>, i: nat, j: nat)
    requires Nested(ZERO, Levels(Kinds(lines))) && i < j < |ShownNumbers(ZERO, Kinds(lines))|
    ensures ShownNumbers(ZERO, Kinds(lines))[i] != ShownNumbers(ZERO, Kinds(lines))[j]
  {
    hide Dotted, LexLess, Kinds;
    var levels := Levels(Kinds(lines));
    var numbers := Numbers(ZERO, levels);
    ShownAreNumbers(ZERO, Kinds(lines));
    NumbersIncreaseExactly(levels);
    NestedIsOpen(Bump(ZERO, levels[0]), levels[0], levels[1..]);
    assert LexLess(numbers[i], numbers[j]);
    LexIrreflexive(numbers[i]);
    if Dotted(numbers[i]) == Dotted(numbers[j]) { DottedInjective(numbers[i], numbers[j]); }
  }

  lemma NumbersFirst(c: Counters, level: Level, levels: seq<Level>)
    ensures Numbers(c, [level] + levels) == [Shown(Bump(c, level), level)] + Numbers(Bump(c, level), levels)
  {
    assert ([level] + levels)[1..] == levels;
  }

  /** Without nesting numbers repeat: a deeper heading, a shallower one and one at the deeper level again. */
  lemma UnnestedNumbersRepeat(deep: Level, shallow: Level)
    requires shallow < deep
    ensures var numbers := Numbers(ZERO, [deep, shallow, deep]); numbers[0] == numbers[2]
  {
    var a := Bump(ZERO, deep);
    var b := Bump(a, shallow);
    assert Shown(a, deep) == Shown(Bump(b, deep), deep);
    hide Shown, Bump, Numbers;
    assert [deep, shallow, deep] == [deep] + ([shallow] + ([deep] + []));
    NumbersFirst(ZERO, deep, [shallow] + ([deep] + []));
    NumbersFirst(a, shallow, [deep] + []);
    NumbersFirst(b, deep, []);
  }
}
