/** Python's `str.splitlines`, `"\n".join` and `str.rstrip`, and how they undo each other. */
module Lines {
  import opened Texts

  predicate IsBreak(c: char) {
    '\n' <= c <= '\r' || '\U{1C}' <= c <= '\U{1E}' || c == '\U{85}' || c == '\U{2028}' || c == '\U{2029}'
  }

  predicate OneLine(text: string) {
    forall i :: 0 <= i < |text| ==> !IsBreak(text[i])
  }

  predicate OneLineEach(lines: seq<string>) {
    forall i :: 0 <= i < |lines| ==> OneLine(lines[i])
  }

  /** The length of the first line. */
  function LineLength(text: string): (n: nat)
    ensures n <= |text| && OneLine(text[..n])
    ensures n < |text| ==> IsBreak(text[n])
  {
    if text == "" || IsBreak(text[0]) then 0
    else
      assert text[..1 + LineLength(text[1..])] == [text[0]] + text[1..][..LineLength(text[1..])];
      1 + LineLength(text[1..])
  }

  /** text.splitlines() */
  function SplitLines(text: string): (lines: seq<string>)
    ensures OneLineEach(lines)
  {
    if text == "" then []
    else
      var n := LineLength(text);
      if n == |text| then assert text[..n] == text; [text]
      else
        var skip := if text[n] == '\r' && n + 1 < |text| && text[n + 1] == '\n' then 2 else 1;
        [text[..n]] + SplitLines(text[n + skip..])
  }

  /** "\n".join(lines) */
  function Join(lines: seq<string>): string {
    if lines == [] then "" else if |lines| == 1 then lines[0] else lines[0] + "\n" + Join(lines[1..])
  }

  /** The lines of a text whose end is stripped: blank lines at the end go, and the last one kept is stripped. */
  function TrimLines(lines: seq<string>): (r: seq<string>)
    requires lines != []
    ensures r != [] && (OneLineEach(lines) ==> OneLineEach(r))
  {
    var front, last := lines[..|lines| - 1], TrimRight(lines[|lines| - 1]);
    if last == "" && front != [] then TrimLines(front) else front + [last]
  }

  lemma {:induction false} FirstLine(line: string, rest: string)
    requires OneLine(line) && (rest == "" || IsBreak(rest[0]))
    ensures LineLength(line + rest) == |line|
  {
    if line != "" {
      assert (line + rest)[1..] == line[1..] + rest;
      FirstLine(line[1..], rest);
    } else {
      assert line + rest == rest;
    }
  }

  lemma SplitFirst(line: string, rest: string)
    requires OneLine(line)
    ensures SplitLines(line + "\n" + rest) == [line] + SplitLines(rest)
  {
    var text := line + "\n" + rest;
    assert text == line + ("\n" + rest);
    FirstLine(line, "\n" + rest);
    hide LineLength;
    assert text[..|line|] == line && text[|line| + 1..] == rest && text[|line|] == '\n';
  }

  /** The line breaks of str.splitlines, by code point. */
  lemma BreaksExactly(c: char)
    ensures IsBreak(c) <==> c as int in {10, 11, 12, 13, 28, 29, 30, 0x85, 0x2028, 0x2029}
  {
  }

  /** A line ends before its break: one break character, or a carriage return with the line feed behind it. */
  lemma SplitBreak(line: string, c: char, rest: string)
    requires OneLine(line) && IsBreak(c)
    ensures SplitLines(line + [c] + rest)
         == [line] + SplitLines(if c == '\r' && rest != "" && rest[0] == '\n' then rest[1..] else rest)
  {
    var text := line + [c] + rest;
    assert text == line + ([c] + rest);
    FirstLine(line, [c] + rest);
    hide LineLength;
    var n := |line|;
    assert text[..n] == line && text[n] == c && text[n + 1..] == rest;
    if c == '\r' && rest != "" && rest[0] == '\n' {
      assert text[n + 1] == '\n' && text[n + 2..] == rest[1..];
    }
  }

  /** The last line needs no break. */
  lemma SplitRest(line: string)
    requires OneLine(line)
    ensures SplitLines(line) == if line == "" then [] else [line]
  {
    FirstLine(line, "");
    assert line + "" == line && line[..|line|] == line;
  }

  /** Lines joined, with a line feed at the end, split back into the same lines. */
  lemma {:induction false} SplitJoined(lines: seq<string>)
    requires lines != [] && OneLineEach(lines)
    ensures SplitLines(Join(lines) + "\n") == lines
  {
    hide SplitLines, OneLine;
    if |lines| == 1 {
      SplitFirst(lines[0], "");
      assert Join(lines) + "\n" == lines[0] + "\n" + "";
      SplitEmpty();
    } else {
      SplitFirst(lines[0], Join(lines[1..]) + "\n");
      SplitJoined(lines[1..]);
      assert Join(lines) + "\n" == lines[0] + "\n" + (Join(lines[1..]) + "\n");
    }
  }

  lemma SplitEmpty()
    ensures SplitLines("") == []
  {
  }

  lemma {:induction false} JoinLast(front: seq<string>, last: string)
    requires front != []
    ensures Join(front + [last]) == Join(front) + "\n" + last
  {
    assert (front + [last])[1..] == front[1..] + [last];
    if |front| > 1 {
      JoinLast(front[1..], last);
    } else {
      assert front[1..] + [last] == [last];
    }
  }

  lemma {:induction false} TrimRightAppend(a: string, b: string)
    ensures TrimRight(a + b) == if TrimRight(b) == "" then TrimRight(a) else a + TrimRight(b)
    decreases |b|
  {
    if b == "" {
      assert a + b == a;
    } else if IsSpace(b[|b| - 1]) {
      assert (a + b)[..|a + b| - 1] == a + b[..|b| - 1];
      TrimRightAppend(a, b[..|b| - 1]);
    }
  }

  /** Stripping the end of joined lines strips the lines. */
  lemma {:induction false} JoinTrimmed(lines: seq<string>)
    requires lines != []
    ensures TrimRight(Join(lines)) == Join(TrimLines(lines))
  {
    var front, last := lines[..|lines| - 1], lines[|lines| - 1];
    assert lines == front + [last];
    hide TrimRight;
    if front != [] {
      JoinLast(front, last);
      JoinLast(front, TrimRight(last));
      TrimRightAppend(Join(front) + "\n", last);
      TrimRightAppend(Join(front), "\n");
      TrimBreak();
      if TrimRight(last) == "" { JoinTrimmed(front); }
    } else {
      assert TrimLines(lines) == [TrimRight(last)];
    }
  }

  lemma TrimBreak()
    ensures TrimRight("\n") == ""
  {
    assert "\n"[..0] == "";
  }

  lemma TrimRightTwice(text: string)
    ensures TrimRight(TrimRight(text)) == TrimRight(text)
  {
  }
}
