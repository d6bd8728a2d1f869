/**
  The regular expressions of the heading renumberer (benchmark/survey_bench/adapter.py), stated by how a line or
  title is put together.
*/
module HeadingLines {
  import opened Wrappers
  import opened Texts
  import opened Integers
  import opened Headings

  // ---------------------------------------------------------------------------------------------
  // Headings
  // ---------------------------------------------------------------------------------------------

  /** Two to six number signs, white space, a title that begins and ends visibly, and white space. */
  ghost predicate HeadingLine(line: string, level: nat, gap: string, title: string, tail: string) {
    && 2 <= level <= 6 && |gap| > 0 && (forall c <- gap :: IsSpace(c)) && (forall c <- tail :: IsSpace(c))
    && title != "" && !IsSpace(title[0]) && !IsSpace(title[|title| - 1])
    && |line| >= level && (forall i :: 0 <= i < level ==> line[i] == '#') && line[level..] == gap + title + tail
  }

  lemma HeadingIsParsed(line: string, level: nat, gap: string, title: string, tail: string)
    requires HeadingLine(line, level, gap, title, tail)
    ensures ParseHeading(line) == Some(Heading(level, title))
  {
    hide Strip, IsSpace;
    StripOf(gap, title, tail);
    assert gap[0] in gap;
    assert line[level] == line[level..][0] == gap[0];
    SignIsVisible();
    CountIs(line, level);
  }

  lemma SignIsVisible()
    ensures !IsSpace('#')
  {
  }

  lemma FirstPart(gap: string, title: string, tail: string)
    requires title != "" && IsSpace((gap + title + tail)[0]) && !IsSpace(title[0])
    ensures gap != ""
  {
  }

  lemma ParsedIsHeading(line: string, level: Level, title: string) returns (gap: string, tail: string)
    requires ParseHeading(line) == Some(Heading(level, title))
    ensures HeadingLine(line, level, gap, title, tail)
  {
    var rest := line[level..];
    CountMeans(line);
    StripEnds(rest);
    gap, tail := StripParts(rest);
    hide Strip, IsSpace, CountHashes;
    FirstPart(gap, title, tail);
  }

  /** A line is a heading if and only if it is put together like this. */
  lemma ParseExactly(line: string, level: Level, title: string)
    ensures ParseHeading(line) == Some(Heading(level, title))
       <==> exists gap, tail :: HeadingLine(line, level, gap, title, tail)
  {
    hide ParseHeading, HeadingLine;
    if ParseHeading(line) == Some(Heading(level, title)) {
      var gap, tail := ParsedIsHeading(line, level, title);
    }
    if gap, tail :| HeadingLine(line, level, gap, title, tail) {
      HeadingIsParsed(line, level, gap, title, tail);
    }
  }

  // ---------------------------------------------------------------------------------------------
  // Numbers in front of titles
  // ---------------------------------------------------------------------------------------------

  /** Digits, with single dots between them and one allowed at the end. */
  predicate NumberText(number: string) {
    && number != "" && number[0] != '.' && NumberTail(number)
  }

  predicate NumberTail(text: string) {
    forall i :: 0 <= i < |text| ==>
      && ('0' <= text[i] <= '9' || text[i] == '.')
      && (text[i] == '.' && i + 1 < |text| ==> text[i + 1] != '.')
  }

  /** The title has this number and white space in front of the rest. */
  ghost predicate Numbered(title: string, number: string, gap: string, rest: string) {
    && NumberText(number) && |gap| > 0 && (forall c <- gap :: IsSpace(c))
    && rest != "" && !IsSpace(rest[0]) && !IsSpace(rest[|rest| - 1])
    && title == number + gap + rest
  }

  lemma TailFirst(number: string, rest: string)
    requires number != "" && NumberTail(number)
    ensures (number + rest)[0] == number[0] && (number + rest)[1..] == number[1..] + rest && NumberTail(number[1..])
    ensures IsDigit(number[0]) || number[0] == '.'
    ensures number[0] == '.' && number[1..] != "" ==> IsDigit(number[1])
  {
  }

  lemma SkipDigit(text: string)
    requires StartsWithDigit(text)
    ensures SkipDigits(text) == SkipDigits(text[1..])
  {
  }

  lemma SkipGroup(text: string)
    requires text != "" && text[0] == '.'
    ensures SkipGroups(text) == if StartsWithDigit(text[1..]) then SkipGroups(SkipDigits(text[1..])) else text
  {
    hide SkipDigits;
  }

  lemma NoDigit(text: string)
    requires !StartsWithDigit(text)
    ensures SkipDigits(text) == text
  {
  }

  lemma {:induction false} SkipsTail(number: string, rest: string)
    requires NumberTail(number) && rest != "" && !IsDigit(rest[0]) && rest[0] != '.'
    ensures var left := SkipGroups(SkipDigits(number + rest)); left == rest || left == "." + rest
    decreases |number|
  {
    hide SkipDigits, SkipGroups, NumberTail;
    if number == "" {
      assert number + rest == rest;
      NoDigit(rest);
      SkipNoGroup(rest);
    } else {
      TailFirst(number, rest);
      SkipsTail(number[1..], rest);
      if number[0] == '.' {
        NoDigit(number + rest);
        SkipGroup(number + rest);
        if number[1..] == "" { assert number == "."; }
      } else {
        SkipDigit(number + rest);
      }
    }
  }

  lemma SkipsNumber(number: string, tail: string)
    requires NumberTail(number) && tail != "" && IsSpace(tail[0])
    ensures AfterNumber(number + tail) == tail
  {
    SpaceIsNeither(tail[0]);
    SkipsTail(number, tail);
    assert ("." + tail)[1..] == tail;
    hide SkipDigits, SkipGroups, IsSpace;
  }

  lemma StartsNumber(number: string, tail: string)
    requires NumberText(number)
    ensures StartsWithDigit(number + tail)
  {
  }

  lemma NumberSkipped(title: string, number: string, gap: string, rest: string)
    requires Numbered(title, number, gap, rest)
    ensures StripNumber(title) == rest
  {
    var tail := gap + rest;
    assert title == number + tail && gap + rest + "" == tail;
    assert gap[0] in gap && tail[0] == gap[0];
    SkipsNumber(number, tail);
    StartsNumber(number, tail);
    StripOf(gap, rest, "");
    hide Strip, AfterNumber, IsSpace, NumberText, StartsWithDigit;
  }

  lemma {:induction false} DigitsSkipped(text: string) returns (digits: string)
    ensures text == digits + SkipDigits(text) && !StartsWithDigit(SkipDigits(text))
    ensures forall i :: 0 <= i < |digits| ==> IsDigit(digits[i])
    ensures digits != "" <==> StartsWithDigit(text)
  {
    if StartsWithDigit(text) {
      var more := DigitsSkipped(text[1..]);
      digits := [text[0]] + more;
    } else {
      digits := "";
    }
  }

  lemma GroupIsTail(digits: string, more: string)
    requires digits != "" && (forall i :: 0 <= i < |digits| ==> IsDigit(digits[i])) && NumberTail(more)
    ensures NumberTail("." + digits + more)
  {
  }

  lemma GroupMore(text: string, digits: string, more: string, rest: string)
    requires text != "" && text[0] == '.' && text[1..] == digits + (more + rest)
    ensures text == ("." + digits + more) + rest
  {
    assert text == "." + text[1..];
  }

  /** What the groups skip: dots, each with digits behind it. */
  lemma {:induction false} GroupsSkipped(text: string) returns (groups: string)
    ensures text == groups + SkipGroups(text) && NumberTail(groups)
    ensures groups != "" ==> groups[0] == '.' && IsDigit(groups[|groups| - 1])
    decreases |text|
  {
    if text != "" && text[0] == '.' && StartsWithDigit(text[1..]) {
      var digits := DigitsSkipped(text[1..]);
      var more := GroupsSkipped(SkipDigits(text[1..]));
      groups := "." + digits + more;
      assert SkipGroups(text) == SkipGroups(SkipDigits(text[1..]));
      hide SkipDigits, NumberTail, IsDigit, StartsWithDigit, SkipGroups;
      GroupIsTail(digits, more);
      GroupMore(text, digits, more, SkipGroups(text));
    } else {
      groups := "";
    }
  }

  lemma DigitsAndGroups(digits: string, groups: string)
    requires digits != "" && (forall i :: 0 <= i < |digits| ==> IsDigit(digits[i])) && NumberTail(groups)
    requires groups != "" ==> IsDigit(groups[|groups| - 1])
    ensures NumberText(digits + groups) && NumberText(digits + groups + ".")
  {
    var number := digits + groups;
    assert IsDigit(number[|number| - 1]);
  }

  lemma LastDot(number: string, rest: string)
    requires rest != "" && rest[0] == '.'
    ensures number + rest == number + "." + rest[1..]
  {
    assert rest == "." + rest[1..];
  }

  lemma NumberFound(title: string) returns (number: string)
    requires StartsWithDigit(title)
    ensures NumberText(number) && title == number + AfterNumber(title)
  {
    var digits := DigitsSkipped(title);
    var groups := GroupsSkipped(SkipDigits(title));
    var rest := SkipGroups(SkipDigits(title));
    hide SkipDigits, SkipGroups, StartsWithDigit, NumberText, NumberTail, IsDigit;
    DigitsAndGroups(digits, groups);
    assert title == digits + groups + rest;
    if rest != "" && rest[0] == '.' {
      LastDot(digits + groups, rest);
      number := digits + groups + ".";
    } else {
      number := digits + groups;
    }
  }

  lemma EndsBlank(front: string, tail: string)
    requires tail != "" && forall c <- tail :: IsSpace(c)
    ensures IsSpace((front + tail)[|front + tail| - 1])
  {
    assert tail[|tail| - 1] in tail;
  }

  /** A text that ends visibly has white space in front only. */
  lemma StripFront(text: string) returns (gap: string)
    requires text != "" && !IsSpace(text[|text| - 1])
    ensures (forall c <- gap :: IsSpace(c)) && text == gap + Strip(text)
    ensures Strip(text) != "" && !IsSpace(Strip(text)[0]) && !IsSpace(Strip(text)[|Strip(text)| - 1])
    ensures IsSpace(text[0]) ==> gap != ""
  {
    StripEnds(text);
    var front, tail := StripParts(text);
    hide Strip, IsSpace;
    gap := front;
    if tail != "" { EndsBlank(front + Strip(text), tail); }
  }

  lemma NumberedTitle(title: string) returns (number: string, gap: string)
    requires title != "" && !IsSpace(title[0]) && !IsSpace(title[|title| - 1])
    requires StripNumber(title) != title
    ensures Numbered(title, number, gap, StripNumber(title))
  {
    StripNothing(title);
    number := NumberFound(title);
    var rest := AfterNumber(title);
    hide AfterNumber, IsSpace, NumberText, Strip;
    assert rest[|rest| - 1] == title[|title| - 1];
    gap := StripFront(rest);
    assert title == number + gap + Strip(rest);
  }

  /** A number is removed if and only if there is one with white space behind it; any other title stays. */
  lemma StripNumberExactly(title: string, plain: string)
    requires title != "" && !IsSpace(title[0]) && !IsSpace(title[|title| - 1])
    ensures StripNumber(title) == plain
       <==> || (exists number, gap :: Numbered(title, number, gap, plain))
            || (plain == title && forall number, gap, rest :: !Numbered(title, number, gap, rest))
  {
    hide StripNumber, Numbered;
    if StripNumber(title) != title {
      var number, gap := NumberedTitle(title);
    }
    forall number, gap, rest | Numbered(title, number, gap, rest) ensures StripNumber(title) == rest {
      NumberSkipped(title, number, gap, rest);
    }
  }

  // ---------------------------------------------------------------------------------------------
  // Kinds
  // ---------------------------------------------------------------------------------------------

  /** The title begins with this word in any letter case, and no letter, digit or underscore follows. */
  predicate Begins(title: string, word: string) {
    && |title| >= |word|
    && (forall i :: 0 <= i < |word| ==>
          title[i] == word[i] || ('a' <= word[i] <= 'z' && title[i] == word[i] - 'a' + 'A'))
    && (|title| > |word| ==>
          var c := title[|word|];
          !('a' <= c <= 'z') && !('A' <= c <= 'Z') && !('0' <= c <= '9') && c != '_')
  }

  lemma BeginsIs(title: string, word: string)
    requires forall i :: 0 <= i < |word| ==> !('A' <= word[i] <= 'Z')
    ensures StartsWord(title, word) <==> Begins(title, word)
  {
    if |word| <= |title| {
      var front := title[..|word|];
      assert forall i :: 0 <= i < |word| ==> Lower(front)[i] == LowerChar(title[i]);
      if forall i :: 0 <= i < |word| ==> LowerChar(title[i]) == word[i] { assert Lower(front) == word; }
    }
  }

  /** The titles that get no number. */
  predicate Unnumbered(title: string) {
    || Begins(title, "abstract") || Begins(title, "executive summary") || Begins(title, "summary")
    || Begins(title, "key takeaway") || Begins(title, "key takeaways")
  }

  lemma AsideExactly(title: string)
    ensures IsAside(title) <==> Unnumbered(title)
  {
    hide StartsWord, Begins;
    BeginsIs(title, "abstract");
    BeginsIs(title, "executive summary");
    BeginsIs(title, "summary");
    BeginsIs(title, "key takeaway");
    BeginsIs(title, "key takeaways");
  }

  lemma TitleKind(level: Level, title: string)
    ensures ClassifyTitle(level, title)
         == if Begins(title, "references") then References
            else if Unnumbered(title) then Aside(level, title) else Counted(level, title)
  {
    BeginsIs(title, "references");
    AsideExactly(title);
    hide StartsWord, Begins, IsAside, Unnumbered;
  }

  /** What a line is: no heading, the references, an aside or a counted heading, by its title without number. */
  lemma ClassifyExactly(line: string)
    ensures match ParseHeading(line)
            case None => Classify(line) == Plain
            case Some(heading) =>
              var title := StripNumber(heading.title);
              if Begins(title, "references") then Classify(line) == References
              else if Unnumbered(title) then Classify(line) == Aside(heading.level, title)
              else Classify(line) == Counted(heading.level, title)
  {
    hide ParseHeading, StripNumber, Classify, ClassifyTitle, Begins, Unnumbered;
    ClassifyIs(line);
    if ParseHeading(line).Some? {
      TitleKind(ParseHeading(line).value.level, StripNumber(ParseHeading(line).value.title));
    }
  }
}
