/** The heading renumberer on whole texts: splitting into lines, the inserted title, the stripped end. */
module HeadingText {
  import opened Texts
  import opened Lines
  import opened Headings

  /** The text `normalize_markdown_headings` returns. */
  function Normalized(text: string, topic: string): string {
    TrimRight(Join(Renumber(WithTitle(SplitLines(text), topic)))) + "\n"
  }

  method NormalizeMarkdownHeadings(text: string, topic: string) returns (r: string)
    ensures r == Normalized(text, topic)
  {
    var normalized := NormalizeLines(SplitLines(text), topic);
    r := TrimRight(Join(normalized)) + "\n";
  }

  // ---------------------------------------------------------------------------------------------
  // Lines stay lines
  // ---------------------------------------------------------------------------------------------

  lemma {:induction false} HashesOneLine(n: nat)
    ensures OneLine(Hashes(n))
  {
    if n > 0 { HashesOneLine(n - 1); }
  }

  lemma {:induction false} DottedOneLine(v: seq<nat>)
    requires v != []
    ensures OneLine(Dotted(v))
  {
    if |v| > 1 { DottedOneLine(v[1..]); }
  }

  /** A piece of a line is a line. */
  lemma PieceOneLine(text: string, i: nat, j: nat)
    requires OneLine(text) && i <= j <= |text|
    ensures OneLine(text[i..j])
  {
  }

  lemma StripOneLine(text: string)
    requires OneLine(text)
    ensures OneLine(Strip(text))
  {
    var right := TrimRight(text);
    PieceOneLine(text, 0, |right|);
    PieceOneLine(right, |right| - |TrimLeft(right)|, |right|);
  }

  lemma TitleOneLine(line: string)
    requires OneLine(line)
    ensures Classify(line).Aside? || Classify(line).Counted? ==> OneLine(Classify(line).title)
  {
    hide Classify, OneLine, ParseHeading, StripNumber, StartsWord, IsAside;
    ClassifyIs(line);
    ParsedOneLine(line);
    if ParseHeading(line).Some? { StripNumberOneLine(ParseHeading(line).value.title); }
  }

  lemma ParsedOneLine(line: string)
    requires OneLine(line)
    ensures ParseHeading(line).Some? ==> OneLine(ParseHeading(line).value.title)
  {
    hide Strip, OneLine;
    var rest := line[CountHashes(line)..];
    PieceOneLine(line, CountHashes(line), |line|);
    assert line[CountHashes(line)..|line|] == rest;
    StripOneLine(rest);
  }

  lemma StripNumberOneLine(title: string)
    requires OneLine(title)
    ensures OneLine(StripNumber(title))
  {
    hide Strip, OneLine, AfterNumber;
    var rest := AfterNumber(title);
    AfterNumberSuffix(title);
    assert title[|title| - |rest|..|title|] == rest;
    PieceOneLine(title, |title| - |rest|, |title|);
    StripOneLine(title);
    StripOneLine(rest);
  }

  lemma AppendOneLine(a: string, b: string)
    requires OneLine(a) && OneLine(b)
    ensures OneLine(a + b)
  {
  }

  lemma SpaceOneLine()
    ensures OneLine(" ") && OneLine("## References")
  {
  }

  lemma EmitOneLine(c: Counters, line: string)
    requires OneLine(line)
    ensures OneLine(Emit(c, Classify(line), line))
  {
    hide Classify, Dotted, Hashes, OneLine, Shown, Bump;
    TitleOneLine(line);
    SpaceOneLine();
    match Classify(line)
    case Plain =>
    case References =>
    case Aside(level, title) =>
      HashesOneLine(level);
      AppendOneLine(Hashes(level), " ");
      AppendOneLine(Hashes(level) + " ", title);
    case Counted(level, title) =>
      var number := Dotted(Shown(Bump(c, level), level));
      HashesOneLine(level);
      DottedOneLine(Shown(Bump(c, level), level));
      AppendOneLine(Hashes(level), " ");
      AppendOneLine(Hashes(level) + " ", number);
      AppendOneLine(Hashes(level) + " " + number, " ");
      AppendOneLine(Hashes(level) + " " + number + " ", title);
  }

  lemma {:induction false} RenumberOneLine(c: Counters, lines: seq<string>)
    requires OneLineEach(lines)
    ensures OneLineEach(RenumberAs(c, Kinds(lines), lines))
    decreases |lines|
  {
    if lines != [] {
      hide OneLine, Classify, Emit, Next, Kinds, RenumberAs;
      RenumberFirst(c, lines);
      EmitOneLine(c, lines[0]);
      RenumberOneLine(Next(c, Classify(lines[0])), lines[1..]);
    }
  }

  // ---------------------------------------------------------------------------------------------
  // The title line
  // ---------------------------------------------------------------------------------------------

  lemma EmitTitle(c: Counters, line: string)
    ensures IsTitleLine(Emit(c, Classify(line), line)) <==> IsTitleLine(line)
  {
    hide Classify, Dotted, Hashes, IsTitleLine, Shown, Bump;
    HeadingIsNoTitle(line);
    match Classify(line) {
      case Plain =>
      case References => HashIsNoTitle("## References");
      case Aside(level, title) =>
        TwoHashes(level, " " + title);
        Regroup(Hashes(level), " ", title);
      case Counted(level, title) =>
        var number := Dotted(Shown(Bump(c, level), level));
        TwoHashes(level, " " + number + " " + title);
        Regroup(Hashes(level), " ", number);
        Regroup(Hashes(level), " " + number, " ");
        Regroup(Hashes(level), " " + number + " ", title);
    }
  }

  lemma HashIsNoTitle(line: string)
    requires |line| > 1 && line[1] == '#'
    ensures !IsTitleLine(line)
  {
  }

  lemma TwoHashes(level: Level, rest: string)
    ensures !IsTitleLine(Hashes(level) + rest)
  {
    hide IsTitleLine;
    assert Hashes(level) == "#" + ("#" + Hashes(level - 2));
    HashIsNoTitle(Hashes(level) + rest);
  }

  lemma HeadingIsNoTitle(line: string)
    ensures !Classify(line).Plain? ==> !IsTitleLine(line)
  {
    hide Classify, IsTitleLine, Strip, StripNumber, ClassifyTitle;
    ClassifyIs(line);
    if CountHashes(line) >= 2 {
      CountMeans(line);
      HashIsNoTitle(line);
    }
  }

  lemma {:induction false} RenumberTitle(c: Counters, lines: seq<string>)
    ensures HasTitle(RenumberAs(c, Kinds(lines), lines)) <==> HasTitle(lines)
    decreases |lines|
  {
    if lines != [] {
      hide IsTitleLine, Classify, Emit, Next, Kinds, RenumberAs, HasTitle;
      RenumberFirst(c, lines);
      EmitTitle(c, lines[0]);
      RenumberTitle(Next(c, Classify(lines[0])), lines[1..]);
      TitleFirst(lines[0], lines[1..]);
      assert lines == [lines[0]] + lines[1..];
      TitleFirst(Emit(c, Classify(lines[0]), lines[0]),
        RenumberAs(Next(c, Classify(lines[0])), Kinds(lines[1..]), lines[1..]));
    }
  }

  lemma TitleFirst(first: string, rest: seq<string>)
    ensures HasTitle([first] + rest) <==> IsTitleLine(first) || HasTitle(rest)
  {
    hide IsTitleLine;
    var lines := [first] + rest;
    assert lines[0] == first;
    if HasTitle(rest) {
      var i :| 0 <= i < |rest| && IsTitleLine(rest[i]);
      assert lines[i + 1] == rest[i];
    }
  }

  lemma TitleLast(front: seq<string>, last: string)
    ensures HasTitle(front + [last]) <==> HasTitle(front) || IsTitleLine(last)
  {
    hide IsTitleLine;
    var lines := front + [last];
    assert lines[|front|] == last;
    if HasTitle(front) {
      var i :| 0 <= i < |front| && IsTitleLine(front[i]);
      assert lines[i] == front[i];
    }
  }

  lemma TrimTitle(line: string)
    ensures IsTitleLine(TrimRight(line)) <==> IsTitleLine(line)
  {
    var r := TrimRight(line);
    if IsTitleLine(line) {
      var i :| 1 <= i < |line| && !IsSpace(line[i]);
      TrimRightKeeps(line, i);
      assert r[1..][i - 1] == line[i];
    }
    if IsTitleLine(r) {
      var i :| 1 <= i < |r| && !IsSpace(r[i]);
      assert line[1..][i - 1] == r[i];
    }
  }

  lemma {:induction false} TrimLinesTitle(lines: seq<string>)
    requires lines != []
    ensures HasTitle(TrimLines(lines)) <==> HasTitle(lines)
  {
    var front, last := lines[..|lines| - 1], lines[|lines| - 1];
    hide IsTitleLine, HasTitle, TrimRight;
    assert lines == front + [last];
    TrimTitle(last);
    TitleLast(front, last);
    if TrimRight(last) == "" && front != [] {
      TrimLinesTitle(front);
      NoTitle();
    } else {
      TitleLast(front, TrimRight(last));
    }
  }

  lemma NoTitle()
    ensures !IsTitleLine("")
  {
  }

  // ---------------------------------------------------------------------------------------------
  // Stripping the end of a renumbered text
  // ---------------------------------------------------------------------------------------------

  lemma TrimRightIdle(text: string)
    requires text == "" || !IsSpace(text[|text| - 1])
    ensures TrimRight(text) == text
  {
  }

  lemma ParseTrimmed(line: string)
    ensures ParseHeading(TrimRight(line)) == ParseHeading(line)
  {
    var n := CountHashes(line);
    var hashes, rest := line[..n], line[n..];
    var right := TrimRight(rest);
    CountMeans(line);
    hide TrimRight, CountHashes, IsSpace, TrimLeft, ParseHeading;
    SpaceIsNeither('#');
    assert line == hashes + rest;
    TrimRightAppend(hashes, rest);
    TrimRightIdle(hashes);
    assert TrimRight(line) == hashes + right;
    CountIs(hashes + right, n);
    TrimRightTwice(rest);
    assert TrimRight(line)[n..] == right;
    ParseBehind(line, TrimRight(line), n);
  }

  lemma ParseBehind(line: string, trimmed: string, n: nat)
    requires n == CountHashes(line) == CountHashes(trimmed)
    requires trimmed[n..] == TrimRight(line[n..]) && TrimRight(trimmed[n..]) == trimmed[n..]
    ensures ParseHeading(trimmed) == ParseHeading(line)
  {
    hide TrimRight, CountHashes, IsSpace;
    var rest, right := line[n..], trimmed[n..];
    assert Strip(right) == Strip(rest);
    TrimNothing();
    if Strip(rest) != "" { assert right[0] == rest[0]; }
  }

  lemma TrimNothing()
    ensures TrimRight("") == "" && TrimLeft("") == ""
  {
  }

  lemma KindTrimmed(line: string)
    ensures Classify(TrimRight(line)) == Classify(line)
  {
    hide ParseHeading, Classify, TrimRight, ClassifyTitle;
    ParseTrimmed(line);
    ClassifyIs(line);
    ClassifyIs(TrimRight(line));
  }

  /** Whatever is written for a heading ends without spaces. */
  lemma EmitTrimmed(c: Counters, line: string)
    ensures !Classify(line).Plain? ==>
      var out := Emit(c, Classify(line), line); out != "" && !IsSpace(out[|out| - 1])
  {
    TitleTrim(line);
    hide Classify, Dotted, Hashes, Shown, Bump;
  }

  /** The counters after these headings. */
  function After(c: Counters, kinds: seq<Kind>): Counters
    decreases |kinds|
  {
    if kinds == [] then c else After(Next(c, kinds[0]), kinds[1..])
  }

  lemma {:induction false} RenumberAsLast(c: Counters, kinds: seq<Kind>, front: seq<string>, kind: Kind, last: string)
    requires |kinds| == |front|
    ensures RenumberAs(c, kinds + [kind], front + [last])
         == RenumberAs(c, kinds, front) + [Emit(After(c, kinds), kind, last)]
    decreases |front|
  {
    hide Emit, Next;
    if front != [] {
      RenumberAsLast(Next(c, kinds[0]), kinds[1..], front[1..], kind, last);
      assert (kinds + [kind])[1..] == kinds[1..] + [kind] && (front + [last])[1..] == front[1..] + [last];
    } else {
      assert kinds + [kind] == [kind] && front + [last] == [last];
    }
  }

  /** The last line is written with the counters the lines before it leave. */
  lemma RenumberLast(front: seq<string>, last: string)
    ensures Renumber(front + [last])
         == Renumber(front) + [Emit(After(ZERO, Kinds(front)), Classify(last), last)]
  {
    hide Classify, RenumberAs, Emit;
    assert Kinds(front + [last]) == Kinds(front) + [Classify(last)];
    RenumberAsLast(ZERO, Kinds(front), front, Classify(last), last);
  }

  /** Renumbered lines that lose spaces and blank lines at their end are still renumbered. */
  lemma {:induction false} TrimmedStays(lines: seq<string>)
    requires lines != [] && Renumber(lines) == lines
    ensures Renumber(TrimLines(lines)) == TrimLines(lines)
  {
    var front, last := lines[..|lines| - 1], lines[|lines| - 1];
    assert lines == front + [last];
    hide Renumber, Emit, Classify, TrimRight;
    RenumberLast(front, last);
    var c := After(ZERO, Kinds(front));
    assert (Renumber(front) + [Emit(c, Classify(last), last)])[..|front|] == Renumber(front);
    assert Renumber(front) == front;
    assert (Renumber(front) + [Emit(c, Classify(last), last)])[|front|] == Emit(c, Classify(last), last);
    if TrimRight(last) == "" && front != [] {
      TrimmedStays(front);
    } else {
      RenumberLast(front, TrimRight(last));
      TrimmedLast(c, last);
    }
  }

  lemma TrimmedLast(c: Counters, last: string)
    requires Emit(c, Classify(last), last) == last
    ensures Emit(c, Classify(TrimRight(last)), TrimRight(last)) == TrimRight(last)
  {
    KindTrimmed(last);
    EmitTrimmed(c, last);
    hide Classify;
    if !Classify(last).Plain? { TrimRightIdle(last); }
  }

  // ---------------------------------------------------------------------------------------------
  // Idempotence
  // ---------------------------------------------------------------------------------------------

  /** The lines of a normalised text, which are already renumbered. */
  lemma LinesOfNormalized(text: string, topic: string)
    requires HasTitle(SplitLines(text)) || OneLine(topic)
    ensures var lines := TrimLines(Renumber(WithTitle(SplitLines(text), topic)));
      SplitLines(Normalized(text, topic)) == lines && Renumber(lines) == lines
      && Join(lines) + "\n" == Normalized(text, topic)
      && (HasTitle(lines) <==> HasTitle(SplitLines(text)) || !Blank(topic))
  {
    var given := SplitLines(text);
    var lines := WithTitle(given, topic);
    TitleInserted(given, topic);
    hide WithTitle, SplitLines, TrimLines, HasTitle, OneLine, Kinds, RenumberAs, Blank, TrimRight;
    var out := Renumber(lines);
    RenumberOneLine(ZERO, lines);
    RenumberTitle(ZERO, lines);
    RenumberIdempotent(lines);
    TrimmedStays(out);
    TrimLinesTitle(out);
    JoinTrimmed(out);
    SplitJoined(TrimLines(out));
  }

  lemma TitleInserted(given: seq<string>, topic: string)
    requires (HasTitle(given) || OneLine(topic)) && OneLineEach(given)
    ensures WithTitle(given, topic) != [] && OneLineEach(WithTitle(given, topic))
    ensures HasTitle(WithTitle(given, topic)) <==> HasTitle(given) || !Blank(topic)
  {
    hide OneLine;
    if !HasTitle(given) {
      var title := "# " + topic;
      var lines := [title, ""] + given;
      hide IsTitleLine, HasTitle, Blank;
      TitleIsTitle(topic);
      TitleOneLineToo(topic);
      NoTitle();
      TitleFirst(title, [""] + given);
      TitleFirst("", given);
      assert lines == [title] + ([""] + given);
    }
  }

  /** The inserted title reads as a title when the topic is not blank. */
  lemma TitleIsTitle(topic: string)
    ensures IsTitleLine("# " + topic) <==> !Blank(topic)
  {
    var title := "# " + topic;
    var spaced := title[1..];
    assert spaced == " " + topic;
    BlankIsSpace();
    hide IsSpace;
    assert forall i :: 0 <= i < |topic| ==> topic[i] == spaced[i + 1];
    assert Blank(spaced) <==> Blank(topic) by {
      if Blank(topic) { assert forall i :: 0 <= i < |spaced| ==> IsSpace(spaced[i]); }
    }
  }

  lemma TitleOneLineToo(topic: string)
    requires OneLine(topic)
    ensures OneLine("# " + topic) && OneLine("")
  {
  }

  /** A text with a title line is left alone once normalised; without one the title is inserted again. */
  lemma NormalizeAgain(text: string, topic: string, lines: seq<string>)
    requires lines != [] && SplitLines(text) == lines && Renumber(lines) == lines
    requires Join(lines) + "\n" == text && TrimRight(Join(lines)) == Join(lines)
    requires HasTitle(lines) || Join(lines) != ""
    ensures Normalized(text, topic) == text <==> HasTitle(lines)
  {
    hide HasTitle, Renumber, TrimRight, SplitLines;
    if !HasTitle(lines) {
      var again := WithTitle(lines, topic);
      OneHash(topic);
      InsertedStays("# " + topic, lines);
      hide Join;
      var head := "# " + topic + "\n" + "" + "\n";
      assert Join(again) == head + Join(lines) by { JoinTwo("# " + topic, "", lines); }
      TrimRightAppend(head, Join(lines));
      assert |Normalized(text, topic)| > |text|;
    }
  }

  lemma JoinTwo(first: string, second: string, lines: seq<string>)
    requires lines != []
    ensures Join([first, second] + lines) == first + "\n" + second + "\n" + Join(lines)
  {
    var more := [second] + lines;
    assert [first, second] + lines == [first] + more;
    assert more[1..] == lines && ([first] + more)[1..] == more;
    assert Join(more) == second + "\n" + Join(lines);
    assert Join([first] + more) == first + "\n" + Join(more);
  }

  lemma InsertedStays(title: string, lines: seq<string>)
    requires Renumber(lines) == lines && CountHashes(title) == 1
    ensures Renumber([title, ""] + lines) == [title, ""] + lines
  {
    PlainTitle(title);
    PlainEmpty();
    hide Classify, RenumberAs, Kinds, CountHashes;
    var more := [""] + lines;
    assert [title, ""] + lines == [title] + more && ([title] + more)[1..] == more && more[1..] == lines;
    RenumberFirst(ZERO, [title] + more);
    RenumberFirst(ZERO, more);
  }

  lemma PlainEmpty()
    ensures Classify("") == Plain
  {
  }

  /**
    Normalising a second time changes nothing exactly when the text has a title line or the topic is not
    blank: a blank topic makes a title the next pass does not recognise, so each pass inserts one more.
    A topic that becomes the title is one line here; HeadingTopics has the topics of several lines.
  */
  lemma NormalizeIdempotentExactly(text: string, topic: string)
    requires HasTitle(SplitLines(text)) || OneLine(topic)
    ensures Normalized(Normalized(text, topic), topic) == Normalized(text, topic)
       <==> HasTitle(SplitLines(text)) || !Blank(topic)
  {
    var out := Renumber(WithTitle(SplitLines(text), topic));
    var lines := TrimLines(out);
    LinesOfNormalized(text, topic);
    JoinTrimmed(out);
    TrimRightTwice(Join(out));
    if !HasTitle(SplitLines(text)) { TitleLeft(SplitLines(text), topic); }
    hide Normalized, SplitLines, TrimRight, WithTitle, Renumber, Join, TrimLines, HasTitle, Blank;
    NormalizeAgain(Normalized(text, topic), topic, lines);
  }

  lemma TitleLeft(given: seq<string>, topic: string)
    requires !HasTitle(given)
    ensures TrimRight(Join(Renumber(WithTitle(given, topic)))) != ""
  {
    var lines := WithTitle(given, topic);
    var out := Renumber(lines);
    var title := "# " + topic;
    hide Renumber, HasTitle, Classify, TrimRight, IsSpace;
    OneHash(topic);
    PlainTitle(title);
    assert lines[0] == title;
    LinesStay(lines, 0);
    assert Join(out)[0] == '#';
    SpaceIsNeither('#');
    TrimRightKeeps(Join(out), 0);
  }

  lemma OneHash(topic: string)
    ensures CountHashes("# " + topic) == 1
  {
    CountIs("# " + topic, 1);
  }

  lemma PlainTitle(title: string)
    requires CountHashes(title) == 1
    ensures Classify(title) == Plain
  {
  }

  lemma RenumberPlain(c: Counters, line: string, rest: seq<string>)
    requires Classify(line) == Plain
    ensures RenumberAs(c, Kinds([line] + rest), [line] + rest) == [line] + RenumberAs(c, Kinds(rest), rest)
  {
    hide Classify, RenumberAs, Kinds;
    RenumberFirst(c, [line] + rest);
    assert ([line] + rest)[1..] == rest;
  }

  lemma InsertedRenumbered(title: string, given: seq<string>)
    requires Classify(title) == Plain
    ensures Renumber([title, ""] + given) == [title, ""] + Renumber(given)
  {
    PlainEmpty();
    hide Classify, RenumberAs, Kinds;
    var more := [""] + given;
    assert [title, ""] + given == [title] + more;
    RenumberPlain(ZERO, title, more);
    RenumberPlain(ZERO, "", given);
  }

  lemma BrokenTitle(topic: string)
    ensures Classify("# " + topic) == Plain
  {
    OneHash(topic);
    PlainTitle("# " + topic);
  }
}
