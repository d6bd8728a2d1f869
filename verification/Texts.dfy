/** The character classes and string methods of Python that the other modules share. */
module Texts {
  /** str.isspace, which str.strip and the regular-expression class \s use. */
  predicate IsSpace(c: char) {
    '\t' <= c <= '\r' || '\U{1C}' <= c <= ' ' || c == '\U{85}' || c == '\U{A0}' || c == '\U{1680}'
    || '\U{2000}' <= c <= '\U{200A}' || c == '\U{2028}' || c == '\U{2029}' || c == '\U{202F}'
    || c == '\U{205F}' || c == '\U{3000}'
  }

  /** `not text.strip()` */
  predicate Blank(text: string) {
    forall c <- text :: IsSpace(c)
  }

  function TrimLeft(text: string): (r: string)
    ensures |r| <= |text| && r == text[|text| - |r|..]
    ensures r == "" || !IsSpace(r[0])
  {
    if text != "" && IsSpace(text[0]) then TrimLeft(text[1..]) else text
  }

  function TrimRight(text: string): (r: string)
    ensures |r| <= |text| && r == text[..|r|]
    ensures r == "" || !IsSpace(r[|r| - 1])
  {
    if text != "" && IsSpace(text[|text| - 1]) then TrimRight(text[..|text| - 1]) else text
  }

  /** str.strip */
  function Strip(text: string): string {
    TrimLeft(TrimRight(text))
  }

  function LowerChar(c: char): char {
    if 'A' <= c <= 'Z' then c - 'A' + 'a' else c
  }

  /** str.lower, on ASCII letters. */
  function Lower(text: string): string {
    seq(|text|, i requires 0 <= i < |text| => LowerChar(text[i]))
  }

  lemma StripNothing(text: string)
    requires text != "" && !IsSpace(text[0]) && !IsSpace(text[|text| - 1])
    ensures Strip(text) == text
  {
  }

  lemma LowerNothing(text: string)
    requires forall i :: 0 <= i < |text| ==> !('A' <= text[i] <= 'Z')
    ensures Lower(text) == text
  {
  }

  /** What is not a space is not stripped, nor anything before it. */
  lemma {:induction false} TrimRightKeeps(text: string, i: nat)
    requires i < |text| && !IsSpace(text[i])
    ensures i < |TrimRight(text)|
  {
    if IsSpace(text[|text| - 1]) { TrimRightKeeps(text[..|text| - 1], i); }
  }

  /** Begins and ends with something other than white space. */
  predicate Trim(text: string) {
    text != "" && !IsSpace(text[0]) && !IsSpace(text[|text| - 1])
  }

  lemma StripOneSpace(text: string)
    requires Trim(text)
    ensures Strip(" " + text) == text
  {
    var spaced := " " + text;
    assert IsSpace(' ');
    assert spaced[|spaced| - 1] == text[|text| - 1] && spaced[0] == ' ' && spaced[1..] == text;
    assert TrimRight(spaced) == spaced;
    assert TrimLeft(spaced) == TrimLeft(text) == text;
  }

  // ---------------------------------------------------------------------------------------------
  // What stripping and lowering leave
  // ---------------------------------------------------------------------------------------------

  lemma {:induction false} TrimRightOf(text: string, tail: string)
    requires (forall c <- tail :: IsSpace(c)) && text != "" && !IsSpace(text[|text| - 1])
    ensures TrimRight(text + tail) == text
  {
    if tail == "" {
      assert text + tail == text;
    } else {
      assert (text + tail)[..|text + tail| - 1] == text + tail[..|tail| - 1];
      assert tail[|tail| - 1] in tail;
      TrimRightOf(text, tail[..|tail| - 1]);
    }
  }

  lemma {:induction false} TrimLeftOf(gap: string, text: string)
    requires (forall c <- gap :: IsSpace(c)) && text != "" && !IsSpace(text[0])
    ensures TrimLeft(gap + text) == text
  {
    if gap == "" {
      assert gap + text == text;
    } else {
      assert (gap + text)[1..] == gap[1..] + text;
      assert gap[0] in gap;
      TrimLeftOf(gap[1..], text);
    }
  }

  /** Stripping removes the white space around a text. */
  lemma StripOf(gap: string, text: string, tail: string)
    requires (forall c <- gap :: IsSpace(c)) && (forall c <- tail :: IsSpace(c))
    requires text != "" && !IsSpace(text[0]) && !IsSpace(text[|text| - 1])
    ensures Strip(gap + text + tail) == text
  {
    TrimRightOf(gap + text, tail);
    TrimLeftOf(gap, text);
  }

  lemma {:induction false} RightPart(text: string) returns (tail: string)
    ensures (forall c <- tail :: IsSpace(c)) && text == TrimRight(text) + tail
  {
    if text != "" && IsSpace(text[|text| - 1]) {
      var rest := RightPart(text[..|text| - 1]);
      tail := rest + [text[|text| - 1]];
    } else {
      tail := "";
    }
  }

  lemma {:induction false} LeftPart(text: string) returns (gap: string)
    ensures (forall c <- gap :: IsSpace(c)) && text == gap + TrimLeft(text)
  {
    if text != "" && IsSpace(text[0]) {
      var rest := LeftPart(text[1..]);
      gap := [text[0]] + rest;
      assert TrimLeft(text) == TrimLeft(text[1..]);
      hide TrimLeft, IsSpace;
      assert text == [text[0]] + text[1..];
    } else {
      gap := "";
    }
  }

  /** Every text is its stripped part between white space. */
  lemma StripParts(text: string) returns (gap: string, tail: string)
    ensures (forall c <- gap :: IsSpace(c)) && (forall c <- tail :: IsSpace(c))
    ensures text == gap + Strip(text) + tail
  {
    tail := RightPart(text);
    var right := TrimRight(text);
    gap := LeftPart(right);
    var middle := TrimLeft(right);
    assert Strip(text) == middle;
    hide *;
    assert text == gap + middle + tail;
  }

  /** Of the ASCII characters, tab to carriage return, the four separators and the blank are white space. */
  lemma AsciiSpaces(c: char)
    requires c as int < 128
    ensures IsSpace(c) <==> 9 <= c as int <= 13 || 28 <= c as int <= 32
  {
  }

  /** Lowering keeps every character but A to Z, which it moves to a to z. */
  lemma LowerAt(text: string, i: nat)
    requires i < |text|
    ensures |Lower(text)| == |text|
    ensures Lower(text)[i] as int == text[i] as int + if 65 <= text[i] as int <= 90 then 32 else 0
  {
  }
}
