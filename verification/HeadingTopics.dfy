/**
  The heading renumberer where the topic it inserts as a title has several lines. The next pass reads each
  of them as a line of the text, so it may number them and count on from them.
*/
module HeadingTopics {
  import opened Texts
  import opened Lines
  import opened Headings
  import opened HeadingText

  /** The lines of the inserted title. */
  function TitleLines(topicLines: seq<string>): (lines: seq<string>)
    requires topicLines != []
    ensures |lines| == |topicLines|
  {
    ["# " + topicLines[0]] + topicLines[1..]
  }

  /** The lines after the first pass, before the end is stripped, of a text without title. */
  function Combined(given: seq<string>, topicLines: seq<string>): (lines: seq<string>)
    requires topicLines != []
    ensures lines != []
  {
    TitleLines(topicLines) + ([""] + Renumber(given))
  }

  // ---------------------------------------------------------------------------------------------
  // The first pass
  // ---------------------------------------------------------------------------------------------

  /** A line with breaks joins as the lines it consists of. */
  lemma {:induction false} JoinBroken(lines: seq<string>, rest: seq<string>)
    requires lines != [] && rest != []
    ensures Join([Join(lines)] + rest) == Join(lines + rest)
  {
    assert ([Join(lines)] + rest)[1..] == rest;
    if |lines| == 1 {
      assert lines + rest == [Join(lines)] + rest;
    } else {
      JoinBroken(lines[1..], rest);
      assert (lines + rest)[1..] == lines[1..] + rest;
      assert ([Join(lines[1..])] + rest)[1..] == rest;
    }
  }

  lemma TitleJoins(topicLines: seq<string>)
    requires topicLines != []
    ensures Join(TitleLines(topicLines)) == "# " + Join(topicLines)
  {
    assert TitleLines(topicLines)[1..] == topicLines[1..];
  }

  lemma CombinedJoins(given: seq<string>, topicLines: seq<string>)
    requires topicLines != [] && !HasTitle(given)
    ensures Join(Renumber(WithTitle(given, Join(topicLines)))) == Join(Combined(given, topicLines))
  {
    var topic := Join(topicLines);
    var rest := [""] + Renumber(given);
    hide Renumber, HasTitle, Join, TitleLines;
    BrokenTitle(topic);
    InsertedRenumbered("# " + topic, given);
    TitleJoins(topicLines);
    JoinBroken(TitleLines(topicLines), rest);
    assert ["# " + topic, ""] + Renumber(given) == ["# " + topic] + rest;
  }

  lemma EmptyOneLine()
    ensures OneLineEach([""])
  {
  }

  lemma TitleLinesOneLine(topicLines: seq<string>)
    requires topicLines != [] && OneLineEach(topicLines)
    ensures OneLineEach(TitleLines(topicLines))
  {
    TitleOneLineToo(topicLines[0]);
    hide OneLine;
    var lines := TitleLines(topicLines);
    forall i | 0 <= i < |lines| ensures OneLine(lines[i]) {
      if i > 0 { assert lines[i] == topicLines[i]; }
    }
  }

  lemma EachAppend(a: seq<string>, b: seq<string>)
    requires OneLineEach(a) && OneLineEach(b)
    ensures OneLineEach(a + b)
  {
    hide OneLine;
    forall i | 0 <= i < |a + b| ensures OneLine((a + b)[i]) {
      if i >= |a| { assert (a + b)[i] == b[i - |a|]; }
    }
  }

  lemma CombinedOneLine(given: seq<string>, topicLines: seq<string>)
    requires topicLines != [] && OneLineEach(given) && OneLineEach(topicLines)
    ensures OneLineEach(Combined(given, topicLines))
  {
    hide OneLine, OneLineEach, RenumberAs, Kinds;
    RenumberOneLine(ZERO, given);
    TitleLinesOneLine(topicLines);
    EmptyOneLine();
    EachAppend([""], Renumber(given));
    EachAppend(TitleLines(topicLines), [""] + Renumber(given));
  }

  lemma CombinedTitle(given: seq<string>, topicLines: seq<string>)
    requires topicLines != [] && !HasTitle(given)
    ensures HasTitle(Combined(given, topicLines)) <==> HasTitle(TitleLines(topicLines))
  {
    hide HasTitle, RenumberAs, Kinds, IsTitleLine, TitleLines;
    RenumberTitle(ZERO, given);
    NoTitle();
    TitleFirst("", Renumber(given));
    TitleAppend(TitleLines(topicLines), [""] + Renumber(given));
  }

  lemma TitleAppend(a: seq<string>, b: seq<string>)
    ensures HasTitle(a + b) <==> HasTitle(a) || HasTitle(b)
  {
    hide IsTitleLine;
    if HasTitle(a) {
      var i :| 0 <= i < |a| && IsTitleLine(a[i]);
      assert (a + b)[i] == a[i];
    }
    if HasTitle(b) {
      var i :| 0 <= i < |b| && IsTitleLine(b[i]);
      assert (a + b)[|a| + i] == b[i];
    }
  }

  /** What the next pass reads. */
  lemma FirstPass(text: string, topicLines: seq<string>)
    requires topicLines != [] && OneLineEach(topicLines) && !HasTitle(SplitLines(text))
    ensures var once, lines := Normalized(text, Join(topicLines)), TrimLines(Combined(SplitLines(text), topicLines));
      && SplitLines(once) == lines && Join(lines) + "\n" == once
      && TrimRight(Join(lines)) == Join(lines) != ""
      && (HasTitle(lines) <==> HasTitle(TitleLines(topicLines)))
  {
    var given := SplitLines(text);
    var lines := Combined(given, topicLines);
    StartsWithHash(given, topicLines);
    hide SplitLines, Renumber, WithTitle, HasTitle, OneLine, TrimRight, Join, TrimLines, Combined, TitleLines;
    CombinedJoins(given, topicLines);
    CombinedOneLine(given, topicLines);
    CombinedTitle(given, topicLines);
    TrimLinesTitle(lines);
    JoinTrimmed(lines);
    TrimRightTwice(Join(lines));
    SplitJoined(TrimLines(lines));
  }

  lemma StartsWithHash(given: seq<string>, topicLines: seq<string>)
    requires topicLines != []
    ensures TrimRight(Join(Combined(given, topicLines))) != ""
  {
    var lines := Combined(given, topicLines);
    hide TrimRight, IsSpace, Renumber;
    assert lines[0] == "# " + topicLines[0];
    assert Join(lines)[0] == '#';
    SpaceIsNeither('#');
    TrimRightKeeps(Join(lines), 0);
  }

  // ---------------------------------------------------------------------------------------------
  // The second pass
  // ---------------------------------------------------------------------------------------------

  /** What a normalised text with a title splits into is renumbered already. */
  lemma FixedIsRenumbered(text: string, topic: string)
    requires HasTitle(SplitLines(text)) && Normalized(text, topic) == text
    ensures Renumber(SplitLines(text)) == SplitLines(text)
  {
    LinesOfNormalized(text, topic);
  }

  lemma {:induction false} TrimLinesLength(lines: seq<string>)
    requires lines != []
    ensures TrimRight(lines[|lines| - 1]) != "" ==> |TrimLines(lines)| == |lines|
    ensures var kept := TrimLines(lines); kept[|kept| - 1] == "" ==> kept == [""]
  {
    hide TrimRight;
    var front := lines[..|lines| - 1];
    if TrimRight(lines[|lines| - 1]) == "" && front != [] { TrimLinesLength(front); }
  }

  lemma LastVisible(front: seq<string>, last: string)
    requires TrimRight(last) != ""
    ensures var out := Renumber(front + [last]); out != [] && TrimRight(out[|out| - 1]) != ""
  {
    hide Renumber, Classify, TrimRight, Emit;
    var c := After(ZERO, Kinds(front));
    RenumberLast(front, last);
    EmitTrimmed(c, last);
    if Classify(last).Plain? {
      PlainStays(c, last);
    } else {
      TrimRightIdle(Emit(c, Classify(last), last));
    }
  }

  lemma PlainStays(c: Counters, line: string)
    requires Classify(line).Plain?
    ensures Emit(c, Classify(line), line) == line
  {
    hide Classify;
  }

  /** Without a title the second pass makes the text longer. */
  lemma InsertsAgain(once: string, topicLines: seq<string>, lines: seq<string>)
    requires topicLines != [] && OneLineEach(topicLines)
    requires lines != [] && SplitLines(once) == lines && !HasTitle(lines)
    requires TrimRight(lines[|lines| - 1]) != ""
    ensures Normalized(once, Join(topicLines)) != once
  {
    hide SplitLines, Renumber, HasTitle, TrimRight, Join, Normalized, TrimLines, TitleLines;
    FirstPass(once, topicLines);
    var n := |lines| - 1;
    assert lines == lines[..n] + [lines[n]];
    LastVisible(lines[..n], lines[n]);
    TrimLinesLength(Combined(lines, topicLines));
  }

  /**
    For a text without title and a topic of any number of lines, normalising a second time changes nothing
    exactly when one of the title's lines reads as a title and the lines of title and text, taken together,
    are numbered as the next pass numbers them.
  */
  lemma TopicIdempotentExactly(text: string, topicLines: seq<string>)
    requires topicLines != [] && OneLineEach(topicLines) && !HasTitle(SplitLines(text))
    ensures var topic, lines := Join(topicLines), TrimLines(Combined(SplitLines(text), topicLines));
      Normalized(Normalized(text, topic), topic) == Normalized(text, topic)
      <==> HasTitle(TitleLines(topicLines)) && Renumber(lines) == lines
  {
    var topic := Join(topicLines);
    var combined := Combined(SplitLines(text), topicLines);
    var once, lines := Normalized(text, topic), TrimLines(combined);
    hide SplitLines, Renumber, HasTitle, TrimRight, Normalized, TrimLines, TitleLines, Combined, OneLine, Join;
    FirstPass(text, topicLines);
    if !HasTitle(lines) {
      LastOfTrimmed(combined);
      InsertsAgain(once, topicLines, lines);
    } else if Renumber(lines) == lines {
      NormalizeAgain(once, topic, lines);
    } else if Normalized(once, topic) == once {
      FixedIsRenumbered(once, topic);
    }
  }

  lemma {:induction false} LastOfTrimmed(lines: seq<string>)
    requires lines != [] && Join(TrimLines(lines)) != ""
    ensures var kept := TrimLines(lines); TrimRight(kept[|kept| - 1]) != ""
  {
    var front, last := lines[..|lines| - 1], lines[|lines| - 1];
    TrimRightTwice(last);
    hide TrimRight;
    if TrimRight(last) == "" && front != [] {
      LastOfTrimmed(front);
    } else {
      assert front == [] ==> Join([TrimRight(last)]) == TrimRight(last);
    }
  }

  // ---------------------------------------------------------------------------------------------
  // The condition line by line
  // ---------------------------------------------------------------------------------------------

  /** Renumbering the second part goes on from the counters the first part leaves. */
  lemma {:induction false} RenumberAppend(c: Counters, a: seq<string>, b: seq<string>)
    ensures RenumberAs(c, Kinds(a + b), a + b)
         == RenumberAs(c, Kinds(a), a) + RenumberAs(After(c, Kinds(a)), Kinds(b), b)
    decreases |a|
  {
    hide Classify, Emit, Next, RenumberAs, Kinds;
    if a == [] {
      assert a + b == b;
      RenumberNothing(c, Kinds(a), a);
    } else {
      RenumberAppend(Next(c, Classify(a[0])), a[1..], b);
      RenumberFirst(c, a);
      RenumberFirst(c, a + b);
      assert (a + b)[1..] == a[1..] + b && (a + b)[0] == a[0];
    }
  }

  /** What a line reads apart from its kind does not matter. */
  lemma {:induction false} RenumberAgain(c: Counters, d: Counters, kinds: seq<Kind>, lines: seq<string>)
    requires |kinds| == |lines|
    ensures RenumberAs(c, kinds, RenumberAs(d, kinds, lines)) == RenumberAs(c, kinds, lines)
    decreases |lines|
  {
    if lines != [] {
      hide Next;
      RenumberAgain(Next(c, kinds[0]), Next(d, kinds[0]), kinds[1..], lines[1..]);
      assert Emit(c, kinds[0], Emit(d, kinds[0], lines[0])) == Emit(c, kinds[0], lines[0]);
      hide Emit;
      assert RenumberAs(d, kinds, lines)[1..] == RenumberAs(Next(d, kinds[0]), kinds[1..], lines[1..]);
    }
  }

  /** The text's lines as they are numbered when counting starts after the topic's headings. */
  function NumberedAfter(topicLines: seq<string>, given: seq<string>): (lines: seq<string>)
    ensures |lines| == |given|
  {
    RenumberAs(After(ZERO, Kinds(topicLines)), Kinds(given), given)
  }

  lemma CombinedRenumbered(given: seq<string>, title: string, more: seq<string>)
    ensures Renumber(Combined(given, [title] + more))
         == ["# " + title] + Renumber(more) + [""] + NumberedAfter(more, given)
  {
    var head, out := "# " + title, Renumber(given);
    BrokenTitle(title);
    PlainEmpty();
    RenumberKeepsKinds(ZERO, given);
    hide Classify, RenumberAs, Kinds, After;
    var c := After(ZERO, Kinds(more));
    RenumberAgain(c, ZERO, Kinds(given), given);
    RenumberPlain(c, "", out);
    RenumberAppend(ZERO, more, [""] + out);
    RenumberPlain(ZERO, head, more + ([""] + out));
    assert ([title] + more)[1..] == more;
    assert Combined(given, [title] + more) == [head] + (more + ([""] + out));
  }

  lemma SameParts(title: string, a: seq<string>, b: seq<string>, c: seq<string>, d: seq<string>)
    requires |a| == |c| && |b| == |d|
    ensures [title] + a + [""] + b == [title] + c + [""] + d <==> a == c && b == d
  {
    var one, other := [title] + a + [""] + b, [title] + c + [""] + d;
    assert one[1..|a| + 1] == a && other[1..|a| + 1] == c && one[|a| + 2..] == b && other[|a| + 2..] == d;
  }

  /** The combined lines stand as they are exactly when the topic's and the text's parts do. */
  lemma CombinedFixed(given: seq<string>, topicLines: seq<string>)
    requires topicLines != []
    ensures var lines, more := Combined(given, topicLines), topicLines[1..];
      Renumber(lines) == lines <==> Renumber(more) == more && NumberedAfter(more, given) == Renumber(given)
  {
    var title, more := topicLines[0], topicLines[1..];
    hide Renumber, NumberedAfter;
    assert topicLines == [title] + more;
    CombinedRenumbered(given, title, more);
    assert Combined(given, topicLines) == ["# " + title] + more + [""] + Renumber(given);
    hide Combined;
    SameParts("# " + title, Renumber(more), NumberedAfter(more, given), more, Renumber(given));
  }

  // ---------------------------------------------------------------------------------------------
  // Which counters leave the numbers of a text alone
  // ---------------------------------------------------------------------------------------------

  /** Every level that is shallower than all before it, which were at least at `bound`, has not been counted. */
  predicate UncountedBelow(c: Counters, bound: nat, levels: seq<Level>)
    decreases |levels|
  {
    levels == []
    || if levels[0] < bound then c[levels[0]] == 0 && UncountedBelow(c, levels[0], levels[1..])
       else UncountedBelow(c, bound, levels[1..])
  }

  /**
    Headings of these levels get the same numbers from these counters as from fresh ones: the first one's
    level is not counted and its ancestors at most once, and no shallower level that follows is counted.
  */
  predicate NumbersUnmoved(c: Counters, levels: seq<Level>) {
    levels == []
    || ((forall i :: 2 <= i < levels[0] ==> c[i] <= 1) && c[levels[0]] == 0
        && UncountedBelow(c, levels[0], levels[1..]))
  }

  lemma {:induction false} UncountedBelowSame(c: Counters, d: Counters, bound: nat, levels: seq<Level>)
    requires forall i :: 2 <= i < bound && i < 7 ==> c[i] == d[i]
    ensures UncountedBelow(c, bound, levels) <==> UncountedBelow(d, bound, levels)
    decreases |levels|
  {
    if levels != [] {
      UncountedBelowSame(c, d, if levels[0] < bound then levels[0] else bound, levels[1..]);
    }
  }

  lemma ShownSameExactly(c: Counters, d: Counters, level: Level)
    requires forall i :: 2 <= i < level ==> d[i] == 0
    requires d[level] == 0
    ensures Shown(Bump(c, level), level) == Shown(Bump(d, level), level)
       <==> c[level] == 0 && forall i :: 2 <= i < level ==> c[i] <= 1
  {
    var a, b := Shown(Bump(c, level), level), Shown(Bump(d, level), level);
    assert a[level - 2] == c[level] + 1 && b[level - 2] == 1;
    assert forall i :: 2 <= i < level ==> a[i - 2] == (if c[i] == 0 then 1 else c[i]) && b[i - 2] == 1;
    if a == b {
      forall i | 2 <= i < level ensures c[i] <= 1 { assert a[i - 2] == b[i - 2]; }
    }
  }

  lemma FirstsEqual<T>(x: T, xs: seq<T>, y: T, ys: seq<T>)
    ensures [x] + xs == [y] + ys <==> x == y && xs == ys
  {
    assert ([x] + xs)[0] == x && ([x] + xs)[1..] == xs && ([y] + ys)[0] == y && ([y] + ys)[1..] == ys;
  }

  /** Counters that agree from `bound` on, and of which one is fresh and the other at most one below. */
  lemma {:induction false} NumbersBelowExactly(c: Counters, d: Counters, bound: nat, levels: seq<Level>)
    requires 2 <= bound <= 6 && forall i :: bound <= i < 7 ==> c[i] == d[i]
    requires forall i :: 2 <= i < bound ==> c[i] <= 1 && d[i] == 0
    ensures Numbers(c, levels) == Numbers(d, levels) <==> UncountedBelow(c, bound, levels)
    decreases |levels|
  {
    if levels != [] {
      var level, rest := levels[0], levels[1..];
      var c', d' := Bump(c, level), Bump(d, level);
      var next := if level < bound then level else bound;
      hide Shown, Numbers;
      assert levels == [level] + rest;
      NumbersFirst(c, level, rest);
      NumbersFirst(d, level, rest);
      FirstsEqual(Shown(c', level), Numbers(c', rest), Shown(d', level), Numbers(d', rest));
      if level < bound { ShownSameExactly(c, d, level); } else { ShownAgrees(c', d', bound, level); }
      UncountedBelowSame(c, c', next, rest);
      if level >= bound || c[level] == 0 { NumbersBelowExactly(c', d', next, rest); }
    }
  }

  lemma ShownAgrees(c: Counters, d: Counters, bound: nat, level: Level)
    requires bound <= level && forall i :: bound <= i < 7 ==> c[i] == d[i]
    requires forall i :: 2 <= i < bound ==> c[i] <= 1 && d[i] == 0
    ensures Shown(c, level) == Shown(d, level)
  {
  }

  lemma SameNumbersExactly(c: Counters, levels: seq<Level>)
    ensures Numbers(c, levels) == Numbers(ZERO, levels) <==> NumbersUnmoved(c, levels)
  {
    if levels != [] {
      var level, rest := levels[0], levels[1..];
      var c', d' := Bump(c, level), Bump(ZERO, level);
      assert levels == [level] + rest;
      ShownSameExactly(c, ZERO, level);
      hide Shown, Numbers;
      NumbersFirst(c, level, rest);
      NumbersFirst(ZERO, level, rest);
      FirstsEqual(Shown(c', level), Numbers(c', rest), Shown(d', level), Numbers(d', rest));
      UncountedBelowSame(c, c', level, rest);
      if c[level] == 0 && forall i :: 2 <= i < level ==> c[i] <= 1 { NumbersBelowExactly(c', d', level, rest); }
    }
  }

  lemma Cancel(a: string, x: string, y: string, b: string)
    ensures a + x + b == a + y + b <==> x == y
  {
    if a + x + b == a + y + b {
      assert |x| == |y|;
      assert x == (a + x + b)[|a|..|a| + |x|] && y == (a + y + b)[|a|..|a| + |y|];
    }
  }

  /** A line is written the same exactly when its number, if it has one, is the same. */
  lemma EmitSameExactly(c: Counters, d: Counters, kind: Kind, line: string)
    ensures Emit(c, kind, line) == Emit(d, kind, line)
       <==> (kind.Counted? ==> Shown(Bump(c, kind.level), kind.level) == Shown(Bump(d, kind.level), kind.level))
  {
    hide Hashes, Dotted, Shown, Bump;
    match kind
    case Counted(level, title) =>
      var v, w := Shown(Bump(c, level), level), Shown(Bump(d, level), level);
      Cancel(Hashes(level) + " ", Dotted(v), Dotted(w), " " + title);
      Regroup(Hashes(level) + " " + Dotted(v), " ", title);
      Regroup(Hashes(level) + " " + Dotted(w), " ", title);
      if Dotted(v) == Dotted(w) { DottedInjective(v, w); }
    case _ =>
  }

  lemma LevelsFirst(kind: Kind, kinds: seq<Kind>)
    ensures Levels([kind] + kinds) == (if kind.Counted? then [kind.level] else []) + Levels(kinds)
  {
    assert ([kind] + kinds)[1..] == kinds;
  }

  /** A text is written the same from two counters exactly when its headings get the same numbers. */
  lemma {:induction false} RenumberSameExactly(c: Counters, d: Counters, lines: seq<string>)
    ensures RenumberAs(c, Kinds(lines), lines) == RenumberAs(d, Kinds(lines), lines)
       <==> Numbers(c, Levels(Kinds(lines))) == Numbers(d, Levels(Kinds(lines)))
    decreases |lines|
  {
    hide Classify, Emit, Kinds, RenumberAs, Numbers, Shown, Bump, Levels;
    if lines == [] {
      RenumberNothing(c, Kinds(lines), lines);
      RenumberNothing(d, Kinds(lines), lines);
      NoLevels();
    } else {
      var kind, rest := Classify(lines[0]), lines[1..];
      RenumberFirst(c, lines);
      RenumberFirst(d, lines);
      FirstsEqual(Emit(c, kind, lines[0]), RenumberAs(Next(c, kind), Kinds(rest), rest),
                  Emit(d, kind, lines[0]), RenumberAs(Next(d, kind), Kinds(rest), rest));
      EmitSameExactly(c, d, kind, lines[0]);
      RenumberSameExactly(Next(c, kind), Next(d, kind), rest);
      LevelsFirst(kind, Kinds(rest));
      if kind.Counted? {
        NumbersFirst(c, kind.level, Levels(Kinds(rest)));
        NumbersFirst(d, kind.level, Levels(Kinds(rest)));
        var c', d' := Bump(c, kind.level), Bump(d, kind.level);
        FirstsEqual(Shown(c', kind.level), Numbers(c', Levels(Kinds(rest))),
                    Shown(d', kind.level), Numbers(d', Levels(Kinds(rest))));
      } else {
        assert [] + Levels(Kinds(rest)) == Levels(Kinds(rest));
      }
    }
  }

  lemma NoLevels()
    ensures Levels([]) == [] && Kinds([]) == []
  {
  }

  lemma NumberedAfterExactly(topicLines: seq<string>, given: seq<string>)
    ensures NumberedAfter(topicLines, given) == Renumber(given)
       <==> NumbersUnmoved(After(ZERO, Kinds(topicLines)), Levels(Kinds(given)))
  {
    hide RenumberAs, Kinds, Numbers, After, NumbersUnmoved, Levels;
    RenumberSameExactly(After(ZERO, Kinds(topicLines)), ZERO, given);
    SameNumbersExactly(After(ZERO, Kinds(topicLines)), Levels(Kinds(given)));
  }

  /** A heading that ends without white space, or no heading. */
  predicate EndsClean(line: string) {
    Classify(line).Plain? || TrimRight(line) == line
  }

  lemma {:induction false} RenumberedEndClean(c: Counters, lines: seq<string>)
    ensures forall line <- RenumberAs(c, Kinds(lines), lines) :: EndsClean(line)
    decreases |lines|
  {
    hide Classify, Emit, Next, Kinds, RenumberAs, TrimRight;
    if lines == [] {
      RenumberNothing(c, Kinds(lines), lines);
    } else {
      RenumberFirst(c, lines);
      RenumberedEndClean(Next(c, Classify(lines[0])), lines[1..]);
      EmitEndsClean(c, lines[0]);
      var out := RenumberAs(c, Kinds(lines), lines);
      assert forall line <- out :: line == out[0] || line in out[1..];
    }
  }

  lemma EmitEndsClean(c: Counters, line: string)
    ensures EndsClean(Emit(c, Classify(line), line))
  {
    hide Classify, Emit, TrimRight;
    EmitTrimmed(c, line);
    if Classify(line).Plain? {
      PlainStays(c, line);
    } else {
      TrimRightIdle(Emit(c, Classify(line), line));
    }
  }

  /** Where stripping the end takes no space off a heading, it does not make lines renumbered. */
  lemma {:induction false} TrimmedBack(front: seq<string>, rest: seq<string>)
    requires front != [] && front[|front| - 1] != "" && TrimRight(front[|front| - 1]) == front[|front| - 1]
    requires forall line <- rest :: EndsClean(line)
    requires Renumber(TrimLines(front + rest)) == TrimLines(front + rest)
    ensures Renumber(front + rest) == front + rest
    decreases |rest|
  {
    hide Renumber, Classify, TrimRight, Emit, EndsClean, After, Kinds;
    if rest == [] {
      assert front + rest == front == front[..|front| - 1] + [front[|front| - 1]];
    } else {
      var n := |rest| - 1;
      var before, last := front + rest[..n], rest[n];
      assert front + rest == before + [last];
      assert EndsClean(last);
      TrimLinesSnoc(before, last);
      hide TrimLines;
      if TrimRight(last) == "" { TrimmedBack(front, rest[..n]); }
      LastFixed(before, last);
    }
  }

  lemma BlankStays(c: Counters, line: string)
    requires TrimRight(line) == ""
    ensures Emit(c, Classify(line), line) == line
  {
    KindTrimmed(line);
    PlainEmpty();
    PlainStays(c, line);
  }

  lemma TrimLinesSnoc(before: seq<string>, last: string)
    requires before != []
    ensures TrimLines(before + [last])
         == if TrimRight(last) == "" then TrimLines(before) else before + [TrimRight(last)]
  {
    hide TrimRight;
    var lines := before + [last];
    assert lines[..|lines| - 1] == before;
  }

  /** One more line that is fixed once its end is stripped is fixed as it is. */
  lemma LastFixed(before: seq<string>, last: string)
    requires EndsClean(last)
    requires if TrimRight(last) == "" then Renumber(before) == before
             else Renumber(before + [TrimRight(last)]) == before + [TrimRight(last)]
    ensures Renumber(before + [last]) == before + [last]
  {
    hide Renumber, Emit, Classify, TrimRight, After, Kinds;
    var c, kept := After(ZERO, Kinds(before)), TrimRight(last);
    RenumberLast(before, last);
    if kept == "" {
      BlankStays(c, last);
    } else {
      RenumberLast(before, kept);
      LastsEqual(Renumber(before), Emit(c, Classify(kept), kept), before, kept);
      if Classify(last).Plain? { PlainStays(c, last); }
    }
  }

  lemma LastsEqual(a: seq<string>, x: string, b: seq<string>, y: string)
    requires |a| == |b| && a + [x] == b + [y]
    ensures a == b && x == y
  {
    assert (a + [x])[..|a|] == a && (b + [y])[..|b|] == b;
    assert (a + [x])[|a|] == x && (b + [y])[|b|] == y;
  }

  /** Ends in something other than white space. */
  predicate Ends(line: string) {
    line != "" && TrimRight(line) == line
  }

  lemma TrimmedExactly(given: seq<string>, topicLines: seq<string>)
    requires topicLines != [] && Ends(topicLines[|topicLines| - 1])
    ensures var lines := Combined(given, topicLines);
      Renumber(TrimLines(lines)) == TrimLines(lines) <==> Renumber(lines) == lines
  {
    var front, rest := TitleLines(topicLines), [""] + Renumber(given);
    TitleEnds(topicLines);
    RenumberedEndClean(ZERO, given);
    assert EndsClean("");
    hide Classify, TrimRight, TrimLines, EndsClean, RenumberAs, Kinds, TitleLines;
    assert forall line <- rest :: line == "" || line in Renumber(given);
    var lines := front + rest;
    if Renumber(lines) == lines { TrimmedStays(lines); }
    if Renumber(TrimLines(lines)) == TrimLines(lines) { TrimmedBack(front, rest); }
  }

  lemma TitleEnds(topicLines: seq<string>)
    requires topicLines != [] && Ends(topicLines[|topicLines| - 1])
    ensures Ends(TitleLines(topicLines)[|topicLines| - 1])
  {
    TrimRightAppend("# ", topicLines[0]);
    hide TrimRight;
  }

  /**
    For a topic that does not end in white space: a second pass changes nothing exactly when one of the
    title's lines reads as a title, the topic's other lines are numbered as they stand, and the counters they
    leave do not move the numbers of headings at the text's levels.
  */
  lemma TopicNumbersExactly(text: string, topicLines: seq<string>)
    requires topicLines != [] && OneLineEach(topicLines) && !HasTitle(SplitLines(text))
    requires Ends(topicLines[|topicLines| - 1])
    ensures var topic, more, given := Join(topicLines), topicLines[1..], SplitLines(text);
      Normalized(Normalized(text, topic), topic) == Normalized(text, topic)
      <==> HasTitle(TitleLines(topicLines)) && Renumber(more) == more
           && NumbersUnmoved(After(ZERO, Kinds(more)), Levels(Kinds(given)))
  {
    hide SplitLines, Renumber, HasTitle, Normalized, TrimLines, OneLineEach, Join, NumberedAfter, Ends, Combined,
         TitleLines, NumbersUnmoved, After, Levels, Kinds;
    TopicIdempotentExactly(text, topicLines);
    TrimmedExactly(SplitLines(text), topicLines);
    CombinedFixed(SplitLines(text), topicLines);
    NumberedAfterExactly(topicLines[1..], SplitLines(text));
  }

  lemma {:induction false} UncountedKeeps(c: Counters, kinds: seq<Kind>)
    requires forall kind <- kinds :: !kind.Counted?
    ensures After(c, kinds) == c
    decreases |kinds|
  {
    if kinds != [] { UncountedKeeps(Next(c, kinds[0]), kinds[1..]); }
  }

  /** A topic whose further lines are no counted headings is harmless exactly when those lines stand as they are. */
  lemma UncountedTopic(text: string, topicLines: seq<string>)
    requires topicLines != [] && OneLineEach(topicLines) && !HasTitle(SplitLines(text))
    requires Ends(topicLines[|topicLines| - 1])
    requires forall kind <- Kinds(topicLines[1..]) :: !kind.Counted?
    ensures var topic, more := Join(topicLines), topicLines[1..];
      Normalized(Normalized(text, topic), topic) == Normalized(text, topic)
      <==> HasTitle(TitleLines(topicLines)) && Renumber(more) == more
  {
    hide SplitLines, HasTitle, Normalized, OneLineEach, Join, Ends, Kinds, RenumberAs;
    TopicNumbersExactly(text, topicLines);
    UncountedKeeps(ZERO, Kinds(topicLines[1..]));
    SameNumbersExactly(ZERO, Levels(Kinds(SplitLines(text))));
  }

  /**
    A topic of two lines puts a line of its own into a text without title. Where that line is one that
    renumbering rewrites, normalisation is not idempotent on any such text.
  */
  lemma BrokenTopic(text: string, first: string, second: string)
    requires !HasTitle(SplitLines(text)) && OneLine(first) && OneLine(second)
    requires Ends(second) && Emit(ZERO, Classify(second), second) != second
    ensures var topic := first + "\n" + second;
      Normalized(Normalized(text, topic), topic) != Normalized(text, topic)
  {
    hide SplitLines, HasTitle, Normalized, OneLine, Ends, RenumberAs, Kinds, Emit, Classify;
    var topicLines := [first, second];
    assert Join(topicLines) == first + "\n" + second by { assert topicLines[1..] == [second]; }
    TopicNumbersExactly(text, topicLines);
    assert topicLines[1..] == [] + [second];
    RenumberLast([], second);
    RenumberNothing(ZERO, Kinds([]), []);
    assert Renumber([second])[0] == Emit(ZERO, Classify(second), second);
  }

  /** A heading of one letter is such a line. */
  lemma LetterRewritten(letter: char)
    requires 'a' <= letter <= 'z'
    ensures Emit(ZERO, Classify("## " + [letter]), "## " + [letter]) != "## " + [letter]
  {
    LetterCounts(letter);
    hide Classify, Dotted;
    HashesTwo();
    assert Dotted(Shown(Bump(ZERO, 2), 2)) != "";
  }

  lemma HashesTwo()
    ensures Hashes(2) == "##"
  {
    assert Hashes(2) == "#" + Hashes(1) && Hashes(1) == "#" + Hashes(0);
  }

  lemma LetterCounts(letter: char)
    requires 'a' <= letter <= 'z'
    ensures Classify("## " + [letter]) == Counted(2, [letter])
  {
    var title := [letter];
    hide ParseHeading, StripNumber, Classify;
    HashesTwo();
    assert "## " + title == Hashes(2) + " " + title;
    ParseEmitted(2, title);
    StripNumberIdle(title);
    ClassifyIs("## " + title);
  }

  // ---------------------------------------------------------------------------------------------
  // Line breaks other than line feeds
  // ---------------------------------------------------------------------------------------------

  /** The only line breaks are line feeds. */
  predicate OnlyFeeds(text: string) {
    forall i :: 0 <= i < |text| && IsBreak(text[i]) ==> text[i] == '\n'
  }

  lemma {:induction false} JoinOnlyFeeds(lines: seq<string>)
    requires OneLineEach(lines)
    ensures OnlyFeeds(Join(lines))
  {
    if |lines| > 1 { JoinOnlyFeeds(lines[1..]); }
  }

  /** What a pass leaves of a text with a title has no other line breaks. */
  lemma TitledOnlyFeeds(text: string, topic: string)
    requires HasTitle(SplitLines(text))
    ensures OnlyFeeds(Normalized(text, topic))
  {
    var lines := SplitLines(text);
    var out := Join(Renumber(lines));
    hide SplitLines, HasTitle, OneLineEach, RenumberAs, Kinds, Join;
    RenumberOneLine(ZERO, lines);
    JoinOnlyFeeds(Renumber(lines));
    var kept := TrimRight(out);
    hide TrimRight;
    assert forall i :: 0 <= i < |kept| ==> kept[i] == out[i];
  }

  lemma {:induction false} FirstBreak(text: string, i: nat)
    requires i < |text| && IsBreak(text[i])
    ensures LineLength(text) <= i
  {
    if !IsBreak(text[0]) { FirstBreak(text[1..], i - 1); }
  }

  lemma TrimKeepsFront(text: string, n: nat)
    requires n < |text| && !IsSpace(text[n])
    ensures text[..n + 1] <= TrimRight(text)
  {
    TrimRightKeeps(text, n);
    var kept := TrimRight(text);
    hide TrimRight, IsSpace;
    assert kept[..n + 1] == text[..n + 1];
  }

  lemma JoinStarts(title: string, rest: seq<string>)
    requires rest != []
    ensures title <= Join([title] + rest)
  {
    assert ([title] + rest)[1..] == rest;
  }

  lemma FrontOfFront(a: string, b: string, c: string)
    requires a <= b <= c
    ensures a <= c
  {
  }

  /** A first pass that inserts the topic keeps it up to its last visible character. */
  lemma TopicKept(text: string, topic: string, j: nat)
    requires !HasTitle(SplitLines(text)) && j < |topic| && !IsSpace(topic[j])
    ensures "# " + topic[..j + 1] <= Normalized(text, topic)
  {
    hide SplitLines, Renumber, HasTitle, TrimRight, IsSpace, Classify, Join;
    var out, title, front := Renumber(SplitLines(text)), "# " + topic, "# " + topic[..j + 1];
    BrokenTitle(topic);
    InsertedRenumbered(title, SplitLines(text));
    assert [title, ""] + out == [title] + ([""] + out);
    JoinStarts(title, [""] + out);
    var all := Join([title, ""] + out);
    assert title[2 + j] == topic[j] == all[2 + j];
    assert all[..3 + j] == title[..3 + j] == front;
    TrimKeepsFront(all, 2 + j);
    FrontOfFront(front, TrimRight(all), TrimRight(all) + "\n");
  }

  /** A text that starts with a visible title and a break has a title. */
  lemma FirstIsTitle(once: string, first: string)
    requires OneLine(first) && !Blank(first) && "# " + first < once && IsBreak(once[2 + |first|])
    ensures HasTitle(SplitLines(once))
  {
    var title := "# " + first;
    TitleOneLineToo(first);
    TitleIsTitle(first);
    hide IsTitleLine, OneLine, Blank;
    assert once == title + once[|title|..];
    FirstLine(title, once[|title|..]);
    assert SplitLines(once)[0] == title;
  }

  lemma TopicInside(topic: string, j: nat, k: nat, once: string)
    requires k <= j < |topic| && "# " + topic[..j + 1] <= once
    ensures 2 + k < |once| && once[2 + k] == topic[k] && "# " + topic[..k] < once
  {
    var head := "# " + topic[..j + 1];
    assert head[2 + k] == topic[k] && head[..2 + k] == "# " + topic[..k];
  }

  /** A break other than a line feed inside a topic that starts visibly survives the first pass only. */
  lemma OtherBreaks(text: string, topic: string, i: nat, j: nat)
    requires !HasTitle(SplitLines(text)) && !Blank(topic[..LineLength(topic)])
    requires i < j < |topic| && IsBreak(topic[i]) && topic[i] != '\n' && !IsSpace(topic[j])
    ensures Normalized(Normalized(text, topic), topic) != Normalized(text, topic)
  {
    var once, n := Normalized(text, topic), LineLength(topic);
    TopicKept(text, topic, j);
    FirstBreak(topic, i);
    hide SplitLines, HasTitle, Normalized, LineLength, Blank, IsBreak, IsSpace;
    TopicInside(topic, j, i, once);
    TopicInside(topic, j, n, once);
    FirstIsTitle(once, topic[..n]);
    TitledOnlyFeeds(once, topic);
  }
}
