/** The topic ids of benchmark/arc_bench/batch_runner.py, with ASCII letters and digits. */
module Topics {
  import opened Wrappers
  import opened Texts
  import opened Integers

  function UpperChar(c: char): char {
    if 'a' <= c <= 'z' then c - 'a' + 'A' else c
  }

  /** str.upper, on ASCII letters. */
  function Upper(text: string): string {
    seq(|text|, i requires 0 <= i < |text| => UpperChar(text[i]))
  }

  /** text.replace("_", "") */
  function WithoutUnderscores(text: string): string {
    if text == "" then ""
    else (if text[0] == '_' then "" else [text[0]]) + WithoutUnderscores(text[1..])
  }

  /** str.isdigit */
  predicate AllDigits(text: string) {
    text != "" && forall i :: 0 <= i < |text| ==> IsDigit(text[i])
  }

  function Cleaned(value: string): string {
    WithoutUnderscores(Upper(Strip(value)))
  }

  function Numbered(digits: string): string
    requires AllDigits(digits)
  {
    DigitsParse(digits);
    "ML" + Padded(ParseDigits(digits).value)
  }

  predicate Prefixed(text: string) {
    |text| > 2 && text[0] == 'M' && text[1] == 'L' && AllDigits(text[2..])
  }

  /** `_normalize_topic_id` */
  function NormalizeTopicId(value: string): string {
    var text := Cleaned(value);
    if Prefixed(text) then Numbered(text[2..])
    else if AllDigits(text) then Numbered(text)
    else text
  }

  lemma {:induction false} DigitsParse(text: string)
    requires AllDigits(text)
    ensures ParseDigits(text).Some?
  {
    var front := text[..|text| - 1];
    if front != "" {
      assert IsDigit(front[|front| - 1]);
      DigitsParse(front);
    }
  }

  /** Neither lower-case letters nor underscores. */
  predicate Clean(text: string) {
    forall i :: 0 <= i < |text| ==> !('a' <= text[i] <= 'z') && text[i] != '_'
  }

  lemma {:induction false} WithoutUnderscoresKeeps(text: string)
    requires forall i :: 0 <= i < |text| ==> !('a' <= text[i] <= 'z')
    ensures Clean(WithoutUnderscores(text))
    ensures Clean(text) ==> WithoutUnderscores(text) == text
  {
    if text != "" { WithoutUnderscoresKeeps(text[1..]); }
  }

  lemma CleanedIsClean(value: string)
    ensures Clean(Cleaned(value))
  {
    hide Strip, WithoutUnderscores;
    WithoutUnderscoresKeeps(Upper(Strip(value)));
  }

  lemma StripClean(text: string)
    requires Clean(text)
    ensures Clean(Strip(text))
  {
    var right := TrimRight(text);
    var left := TrimLeft(right);
    hide TrimLeft, TrimRight;
    assert Clean(right);
    assert Clean(left);
  }

  lemma UpperClean(text: string)
    requires Clean(text)
    ensures Upper(text) == text
  {
  }

  /** Cleaning a clean text only strips it. */
  lemma CleanOnlyStrips(text: string)
    requires Clean(text)
    ensures Cleaned(text) == Strip(text)
  {
    StripClean(text);
    hide Strip, WithoutUnderscores, Upper;
    UpperClean(Strip(text));
    WithoutUnderscoresKeeps(Strip(text));
  }

  lemma PaddedDigits(n: nat)
    ensures AllDigits(Padded(n)) && ParseDigits(Padded(n)) == Some(n)
  {
    ParsePadded(n);
    hide Decimal, ParseDigits;
  }

  lemma EndsKept(text: string)
    requires Prefixed(text) || AllDigits(text)
    ensures Strip(text) == text && text != "" && Clean(text)
  {
    var first, last := text[0], text[|text| - 1];
    assert IsDigit(last) by { if Prefixed(text) { assert last == text[2..][|text| - 3]; } }
    NotSpace(last);
    if !Prefixed(text) { NotSpace(first); }
    StripNothing(text);
    forall i | 0 <= i < |text| ensures !('a' <= text[i] <= 'z') && text[i] != '_' {
      if Prefixed(text) && i >= 2 { assert text[i] == text[2..][i - 2]; }
    }
  }

  /** Every spelling of a number is the same topic, and the normal spelling is fixed. */
  lemma NumberSpellings(digits: string, prefixed: string)
    requires AllDigits(digits) && prefixed == "ML" + digits
    ensures NormalizeTopicId(digits) == NormalizeTopicId(prefixed) == Numbered(digits)
    ensures NormalizeTopicId(Numbered(digits)) == Numbered(digits)
  {
    hide Strip, Cleaned, ParseDigits, Padded;
    assert prefixed[2..] == digits;
    EndsKept(digits);
    EndsKept(prefixed);
    CleanOnlyStrips(digits);
    CleanOnlyStrips(prefixed);
    assert IsDigit(digits[0]);
    NumberedFixed(digits);
  }

  lemma NumberedFixed(digits: string)
    requires AllDigits(digits)
    ensures NormalizeTopicId(Numbered(digits)) == Numbered(digits) && Prefixed(Numbered(digits))
  {
    DigitsParse(digits);
    var n := ParseDigits(digits).value;
    var id := "ML" + Padded(n);
    PaddedDigits(n);
    hide Strip, Cleaned, ParseDigits, Padded;
    assert id[2..] == Padded(n);
    EndsKept(id);
    CleanOnlyStrips(id);
  }

  /**
    Normalising an id twice is normalising it once exactly when removing the underscores has left no white
    space at its ends.
  */
  lemma NormalizeTopicIdempotentExactly(value: string)
    ensures NormalizeTopicId(NormalizeTopicId(value)) == NormalizeTopicId(value)
       <==> Strip(Cleaned(value)) == Cleaned(value)
  {
    var text := Cleaned(value);
    CleanedIsClean(value);
    CleanOnlyStrips(text);
    hide Strip, Cleaned, Clean, Numbered;
    if Prefixed(text) {
      EndsKept(text);
      NumberedFixed(text[2..]);
    } else if AllDigits(text) {
      EndsKept(text);
      NumberedFixed(text);
    } else {
      var stripped := Strip(text);
      if stripped != text {
        if Prefixed(stripped) {
          NumberedEnds(stripped[2..], text);
        } else if AllDigits(stripped) {
          NumberedEnds(stripped, text);
        }
      }
    }
  }

  lemma WithoutFirst(text: string)
    requires text != ""
    ensures WithoutUnderscores(text) == (if text[0] == '_' then "" else [text[0]]) + WithoutUnderscores(text[1..])
  {
  }

  lemma CleanBehindSpace(text: string)
    requires Clean(text)
    ensures Clean(" " + text)
  {
  }

  lemma CleanedTwice(text: string)
    requires Clean(text) && Trim(text)
    ensures Cleaned(text) == text && Cleaned(" " + text) == text
  {
    hide IsSpace, Cleaned, Strip, Clean;
    StripNothing(text);
    StripOneSpace(text);
    CleanOnlyStrips(text);
    CleanBehindSpace(text);
    CleanOnlyStrips(" " + text);
  }

  lemma HiddenSpace(text: string)
    requires Clean(text) && Trim(text)
    ensures Cleaned("_" + (" " + text)) == " " + text
  {
    var spaced := " " + text;
    var hidden := "_" + spaced;
    CleanBehindSpace(text);
    UpperHidden(spaced);
    assert !IsSpace('_') && hidden[|hidden| - 1] == text[|text| - 1];
    hide IsSpace, Strip, Upper, WithoutUnderscores;
    StripNothing(hidden);
    WithoutFirst(hidden);
    WithoutUnderscoresKeeps(spaced);
    assert hidden[1..] == spaced && "" + spaced == spaced;
  }

  lemma UpperHidden(text: string)
    requires Clean(text)
    ensures Upper("_" + text) == "_" + text
  {
  }

  lemma KeptAsText(value: string, text: string)
    requires Cleaned(value) == text && text != "" && !IsDigit(text[|text| - 1])
    ensures NormalizeTopicId(value) == text
  {
    hide Cleaned, Numbered;
    if |text| > 2 { assert text[2..][|text| - 3] == text[|text| - 1]; }
  }

  /** Ids for which a second pass matters, such as "_ X": an underscore in front keeps the space behind it. */
  lemma UnderscoreHidesSpace(text: string)
    requires Clean(text) && Trim(text) && !IsDigit(text[|text| - 1])
    ensures NormalizeTopicId("_" + (" " + text)) == " " + text
    ensures NormalizeTopicId(" " + text) == text
  {
    hide Cleaned, NormalizeTopicId, IsSpace;
    HiddenSpace(text);
    CleanedTwice(text);
    KeptAsText("_" + (" " + text), " " + text);
    KeptAsText(" " + text, text);
  }

  lemma NumberedEnds(digits: string, text: string)
    requires AllDigits(digits) && Strip(text) != text
    ensures Numbered(digits) != text
  {
    NumberedFixed(digits);
    EndsKept(Numbered(digits));
  }

  // ---------------------------------------------------------------------------------------------
  // The topics of a command
  // ---------------------------------------------------------------------------------------------

  function NormalizeEach(values: seq<string>): (ids: seq<string>)
    ensures |ids| == |values|
  {
    seq(|values|, i requires 0 <= i < |values| => NormalizeTopicId(values[i]))
  }

  ghost predicate Distinct(topics: seq<string>) {
    forall i, j :: 0 <= i < j < |topics| ==> topics[i] != topics[j]
  }

  function Elements(topics: seq<string>): set<string> {
    set t | t in topics
  }

  /** Where a topic is asked for first. */
  function FirstIndex(requested: seq<string>, topic: string): (i: nat)
    requires topic in requested
    ensures i < |requested| && requested[i] == topic && topic !in requested[..i]
  {
    if requested[0] == topic then 0 else 1 + FirstIndex(requested[1..], topic)
  }

  /** In the order they were asked for first. */
  ghost predicate InOrder(topics: seq<string>, requested: seq<string>) {
    (forall t <- topics :: t in requested)
    && forall i, j :: 0 <= i < j < |topics| ==> FirstIndex(requested, topics[i]) < FirstIndex(requested, topics[j])
  }

  lemma InPrefix(xs: seq<string>, i: nat, n: nat)
    ensures i < n <= |xs| ==> xs[i] in xs[..n]
  {
    assert i < n <= |xs| ==> xs[..n][i] == xs[i];
  }

  lemma FirstIndexIs(requested: seq<string>, i: nat)
    requires i < |requested| && requested[i] !in requested[..i]
    ensures FirstIndex(requested, requested[i]) == i
  {
    var j := FirstIndex(requested, requested[i]);
    InPrefix(requested, i, j);
    InPrefix(requested, j, i);
  }

  lemma FirstIndexPrefix(requested: seq<string>, n: nat, topic: string)
    requires n <= |requested| && topic in requested[..n]
    ensures topic in requested && FirstIndex(requested, topic) == FirstIndex(requested[..n], topic)
  {
    var i := FirstIndex(requested[..n], topic);
    assert requested[i] == topic && requested[..n][..i] == requested[..i];
    FirstIndexIs(requested, i);
  }

  /** One more topic that was not asked for before comes last. */
  lemma InOrderSnoc(topics: seq<string>, requested: seq<string>, i: nat)
    requires i < |requested| && InOrder(topics, requested[..i]) && requested[i] !in requested[..i]
    ensures InOrder(topics + [requested[i]], requested[..i + 1])
  {
    var prefix := requested[..i + 1];
    InOrderLonger(topics, requested, i);
    assert prefix[..i] == requested[..i] && prefix[i] == requested[i];
    FirstIndexIs(prefix, i);
    forall t | t in topics ensures t in prefix && FirstIndex(prefix, t) < i { FirstIndexPrefix(prefix, i, t); }
    InOrderAdd(topics, prefix[i], prefix);
  }

  lemma InOrderAdd(topics: seq<string>, topic: string, requested: seq<string>)
    requires InOrder(topics, requested) && topic in requested
    requires forall t <- topics :: FirstIndex(requested, t) < FirstIndex(requested, topic)
    ensures InOrder(topics + [topic], requested)
  {
    hide FirstIndex;
    var more := topics + [topic];
    assert forall t <- more :: t in topics || t == topic;
    forall i, j | 0 <= i < j < |more| ensures FirstIndex(requested, more[i]) < FirstIndex(requested, more[j]) {
      if j < |topics| {
        assert more[i] == topics[i] && more[j] == topics[j];
      } else {
        assert more[i] == topics[i] && topics[i] in topics && more[j] == topic;
      }
    }
  }

  lemma InOrderLonger(topics: seq<string>, requested: seq<string>, i: nat)
    requires i < |requested| && InOrder(topics, requested[..i])
    ensures InOrder(topics, requested[..i + 1])
  {
    var prefix := requested[..i + 1];
    assert prefix[..i] == requested[..i];
    forall t | t in topics ensures t in prefix && FirstIndex(prefix, t) == FirstIndex(requested[..i], t) {
      FirstIndexPrefix(prefix, i, t);
    }
  }

  lemma InOrderNothing(requested: seq<string>)
    ensures InOrder([], requested)
  {
  }

  lemma ElementsSnoc(ids: seq<string>, i: nat)
    requires i < |ids|
    ensures Elements(ids[..i + 1]) == Elements(ids[..i]) + {ids[i]}
  {
    assert ids[..i + 1] == ids[..i] + [ids[i]];
  }

  lemma ElementsAdd(topics: seq<string>, topic: string)
    ensures Elements(topics + [topic]) == Elements(topics) + {topic}
  {
  }

  function Unprepared(topics: seq<string>, prepared: set<string>): seq<string> {
    if topics == [] then []
    else
      var n := |topics| - 1;
      Unprepared(topics[..n], prepared) + if topics[n] in prepared then [] else [topics[n]]
  }

  lemma InOrderFront(topics: seq<string>, requested: seq<string>, n: nat)
    requires InOrder(topics, requested) && n <= |topics|
    ensures InOrder(topics[..n], requested)
  {
    hide FirstIndex;
    assert forall t <- topics[..n] :: t in topics;
  }

  /** Some of the topics before the n-th, and then that one. */
  lemma KeepsOrder(some: seq<string>, topics: seq<string>, n: nat, requested: seq<string>)
    requires n < |topics| && Distinct(topics) && InOrder(topics, requested)
    requires Distinct(some) && InOrder(some, requested) && forall t <- some :: t in topics[..n]
    ensures Distinct(some + [topics[n]]) && InOrder(some + [topics[n]], requested)
  {
    hide FirstIndex;
    assert topics[n] in topics;
    forall t | t in some
      ensures t in requested && t != topics[n] && FirstIndex(requested, t) < FirstIndex(requested, topics[n])
    {
      var k :| 0 <= k < n && topics[k] == t;
      assert topics[k] in topics;
    }
    InOrderAdd(some, topics[n], requested);
  }

  lemma Within(some: set<string>, all: set<string>)
    ensures some - all == {} <==> some <= all
  {
    if some - all == {} {
      forall t | t in some ensures t in all { assert t in some - all <==> t !in all; }
    }
  }

  lemma NoElements(topics: seq<string>)
    ensures Elements(topics) == {} <==> topics == []
  {
    if topics != [] { assert topics[0] in Elements(topics); }
  }

  lemma MembersAmong(some: seq<string>, all: seq<string>)
    requires Elements(some) <= Elements(all)
    ensures forall t <- some :: t in all
  {
    forall t | t in some ensures t in all { assert t in Elements(some); }
  }

  lemma UnpreparedLast(topics: seq<string>, n: nat, prepared: set<string>)
    requires |topics| == n + 1
    ensures Unprepared(topics, prepared)
         == Unprepared(topics[..n], prepared) + if topics[n] in prepared then [] else [topics[n]]
  {
  }

  lemma OneMoreUnprepared(topics: seq<string>, n: nat, missing: seq<string>, requested: seq<string>, prepared: set<string>)
    requires |topics| == n + 1 && Distinct(topics) && InOrder(topics, requested)
    requires Elements(missing) == Elements(topics[..n]) - prepared && Distinct(missing) && InOrder(missing, requested)
    ensures var all := missing + if topics[n] in prepared then [] else [topics[n]];
      Elements(all) == Elements(topics) - prepared && Distinct(all) && InOrder(all, requested)
  {
    hide InOrder, FirstIndex, Distinct, Elements;
    ElementsSnoc(topics, n);
    assert topics[..n + 1] == topics;
    if topics[n] in prepared {
      assert missing + [] == missing;
    } else {
      ElementsAdd(missing, topics[n]);
      MembersAmong(missing, topics[..n]);
      KeepsOrder(missing, topics, n, requested);
    }
  }

  lemma {:induction false} UnpreparedExactly(topics: seq<string>, requested: seq<string>, prepared: set<string>)
    requires Distinct(topics) && InOrder(topics, requested)
    ensures var missing := Unprepared(topics, prepared);
      && Elements(missing) == Elements(topics) - prepared
      && Distinct(missing) && InOrder(missing, requested)
  {
    if topics != [] {
      var n := |topics| - 1;
      InOrderFront(topics, requested, n);
      DistinctFront(topics, n);
      hide InOrder, FirstIndex, Distinct, Elements, Unprepared;
      UnpreparedExactly(topics[..n], requested, prepared);
      UnpreparedLast(topics, n, prepared);
      OneMoreUnprepared(topics, n, Unprepared(topics[..n], prepared), requested, prepared);
    }
  }

  lemma DistinctFront(topics: seq<string>, n: nat)
    requires Distinct(topics) && n <= |topics|
    ensures Distinct(topics[..n])
  {
  }

  datatype Resolution = Resolved(topics: seq<string>) | Missing(topics: seq<string>)

  /**
    The part of `_resolve_topics` that follows the choice of topics: normal spelling, exclusion, duplicates
    and the check that every topic is prepared.
  */
  method ResolveTopics(requested: seq<string>, excludedIds: seq<string>, prepared: set<string>)
    returns (resolution: Resolution)
    ensures Distinct(resolution.topics) && InOrder(resolution.topics, NormalizeEach(requested))
    ensures var wanted := Elements(NormalizeEach(requested)) - Elements(NormalizeEach(excludedIds));
      && (resolution.Resolved? <==> wanted <= prepared)
      && Elements(resolution.topics) == if wanted <= prepared then wanted else wanted - prepared
  {
    hide NormalizeTopicId, FirstIndex, InOrder;
    var excluded := Elements(NormalizeEach(excludedIds));
    var ids := NormalizeEach(requested);
    var seen: set<string>, topics: seq<string>, missing: seq<string> := {}, [], [];
    InOrderNothing([]);
    assert ids[..0] == [];
    for i := 0 to |ids|
      invariant seen == Elements(topics) == Elements(ids[..i]) - excluded
      invariant Distinct(topics) && InOrder(topics, ids[..i])
    {
      var topic := ids[i];
      ElementsSnoc(ids, i);
      if topic !in excluded && topic !in seen {
        InOrderSnoc(topics, ids, i);
        ElementsAdd(topics, topic);
        seen := seen + {topic};
        topics := topics + [topic];
      } else {
        InOrderLonger(topics, ids, i);
      }
    }
    assert ids[..|ids|] == ids;
    for i := 0 to |topics|
      invariant missing == Unprepared(topics[..i], prepared)
    {
      assert topics[..i + 1][..i] == topics[..i];
      if topics[i] !in prepared { missing := missing + [topics[i]]; }
    }
    assert topics[..|topics|] == topics;
    UnpreparedExactly(topics, ids, prepared);
    NoElements(missing);
    Within(Elements(topics), prepared);
    resolution := if missing != [] then Missing(missing) else Resolved(topics);
  }
}
