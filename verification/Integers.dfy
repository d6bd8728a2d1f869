/** Python's `str` and `int` on integers, with ASCII digits. */
module Integers {
  import opened Wrappers
  import opened Texts

  predicate IsDigit(c: char) {
    '0' <= c <= '9'
  }

  function DigitValue(c: char): nat
    requires IsDigit(c)
  {
    (c - '0') as int
  }

  function DigitChar(d: nat): (c: char)
    requires d < 10
    ensures IsDigit(c) && DigitValue(c) == d
  {
    '0' + d as char
  }

  function Decimal(n: nat): (text: string)
    ensures text != "" && forall i :: 0 <= i < |text| ==> IsDigit(text[i])
  {
    if n < 10 then [DigitChar(n)] else Decimal(n / 10) + [DigitChar(n % 10)]
  }

  /** str(n) */
  function Str(n: int): (text: string)
    ensures text != "" && IsDigit(text[|text| - 1]) && (IsDigit(text[0]) || text[0] == '-')
  {
    if n < 0 then "-" + Decimal(-n) else Decimal(n)
  }

  /** Digits, with single underscores allowed between them. */
  function ParseDigits(text: string): Option<nat> {
    if text == "" || !IsDigit(text[|text| - 1]) then None
    else
      var last := DigitValue(text[|text| - 1]);
      var front := text[..|text| - 1];
      if front == "" then Some(last)
      else
        var rest := ParseDigits(if front[|front| - 1] == '_' then front[..|front| - 1] else front);
        if rest.None? then None else Some(10 * rest.value + last)
  }

  /** int(text), or no value where Python raises ValueError. */
  function ParseInt(text: string): Option<int> {
    var body := Strip(text);
    if body != "" && (body[0] == '-' || body[0] == '+') then
      var digits := ParseDigits(body[1..]);
      if digits.None? then None
      else
        var magnitude: int := digits.value;
        Some(if body[0] == '-' then -magnitude else magnitude)
    else
      var digits := ParseDigits(body);
      if digits.None? then None else Some(digits.value)
  }

  lemma {:induction false} ParseDecimal(n: nat)
    ensures ParseDigits(Decimal(n)) == Some(n)
  {
    if n >= 10 {
      ParseDecimal(n / 10);
      var front := Decimal(n / 10);
      assert Decimal(n)[..|Decimal(n)| - 1] == front;
      assert IsDigit(front[|front| - 1]);
    }
  }

  lemma NotSpace(c: char)
    requires IsDigit(c) || c == '-'
    ensures !IsSpace(c)
  {
  }

  /** Reading back what was written gives the same integer. */
  lemma ParseStr(n: int)
    ensures ParseInt(Str(n)) == Some(n)
  {
    hide Strip, IsSpace, ParseDigits, Decimal;
    NotSpace(Str(n)[0]);
    NotSpace(Str(n)[|Str(n)| - 1]);
    StripNothing(Str(n));
    if n < 0 {
      ParseDecimal(-n);
      assert Str(n)[1..] == Decimal(-n);
    } else {
      ParseDecimal(n);
    }
  }

  lemma {:induction false} DigitsHaveNo(text: string, c: char)
    requires ParseDigits(text).Some? && !IsDigit(c) && c != '_'
    ensures c !in text
  {
    var front := text[..|text| - 1];
    assert text == front + [text[|text| - 1]];
    if front != "" {
      if front[|front| - 1] == '_' {
        assert front == front[..|front| - 1] + ['_'];
        DigitsHaveNo(front[..|front| - 1], c);
      } else {
        DigitsHaveNo(front, c);
      }
    }
  }

  /** Neither a rendered nor a readable integer contains an equals sign. */
  lemma NoEqualsSign(text: string)
    ensures ParseInt(text).Some? ==> '=' !in Strip(text)
  {
    if ParseInt(text).Some? {
      var body := Strip(text);
      if body[0] == '-' || body[0] == '+' {
        DigitsHaveNo(body[1..], '=');
        assert body == [body[0]] + body[1..];
      } else {
        DigitsHaveNo(body, '=');
      }
    }
  }

  lemma StrHasNoEqualsSign(n: int)
    ensures '=' !in Str(n)
  {
    hide Strip, IsSpace, ParseInt, Str;
    NoEqualsSign(Str(n));
    ParseStr(n);
    assert !IsSpace(Str(n)[0]) && !IsSpace(Str(n)[|Str(n)| - 1]) by { NotSpace(Str(n)[0]); NotSpace(Str(n)[|Str(n)| - 1]); }
    StripNothing(Str(n));
  }

  /** f"{n:02d}" */
  function Padded(n: nat): string {
    if n < 10 then "0" + Decimal(n) else Decimal(n)
  }

  lemma ParsePadded(n: nat)
    ensures ParseDigits(Padded(n)) == Some(n)
  {
    ParseDecimal(n);
    if n < 10 {
      assert Decimal(n) == [DigitChar(n)];
      assert ("0" + Decimal(n))[..1] == "0";
      assert ParseDigits("0") == Some(0);
    }
  }

  // ---------------------------------------------------------------------------------------------
  // Which texts are integers
  // ---------------------------------------------------------------------------------------------

  /** Digits and single underscores, a digit at both ends. */
  predicate DigitText(text: string) {
    && |text| > 0 && '0' <= text[0] <= '9' && '0' <= text[|text| - 1] <= '9'
    && forall i: nat :: i < |text| ==> DigitPlace(text, i)
  }

  /** A digit, or an underscore with something else behind it. */
  predicate DigitPlace(text: string, i: nat)
    requires i < |text|
  {
    || '0' <= text[i] <= '9'
    || (text[i] == '_' && i + 1 < |text| && text[i + 1] != '_')
  }

  /** The number the first `k` characters spell in base ten, underscores left out. */
  function SpelledBy(text: string, k: nat): int
    requires k <= |text|
  {
    if k == 0 then 0
    else if text[k - 1] == '_' then SpelledBy(text, k - 1)
    else 10 * SpelledBy(text, k - 1) + (text[k - 1] as int - '0' as int)
  }

  lemma {:induction false} SpelledFront(text: string, front: string, k: nat)
    requires k <= |front| <= |text| && front == text[..|front|]
    ensures SpelledBy(text, k) == SpelledBy(front, k)
  {
    if k > 0 { SpelledFront(text, front, k - 1); }
  }

  /** Digits are read if and only if they are such a text, as the number it spells. */
  lemma {:induction false} ParseDigitsExactly(text: string)
    ensures ParseDigits(text).Some? <==> DigitText(text)
    ensures DigitText(text) ==> ParseDigits(text) == Some(SpelledBy(text, |text|))
    decreases |text|
  {
    if text != "" && IsDigit(text[|text| - 1]) {
      var n := |text| - 1;
      var front := text[..n];
      SpelledFront(text, front, n);
      if front != "" {
        var less := if front[n - 1] == '_' then front[..n - 1] else front;
        ParseDigitsExactly(less);
        SpelledFront(front, less, |less|);
        DigitTextLess(text, less);
      }
    }
  }

  lemma DigitTextLess(text: string, less: string)
    requires |text| > 1 && '0' <= text[|text| - 1] <= '9'
    requires less == text[..if text[|text| - 2] == '_' then |text| - 2 else |text| - 1]
    ensures DigitText(text) <==> DigitText(less)
  {
    var n := |less|;
    assert forall i :: 0 <= i < n ==> less[i] == text[i];
    assert forall i: nat :: i + 1 < n ==> (DigitPlace(less, i) <==> DigitPlace(text, i));
    assert DigitPlace(text, |text| - 1);
    if DigitText(text) {
      assert DigitPlace(text, n);
      if n > 0 { assert DigitPlace(text, n - 1); }
    }
    if DigitText(less) {
      assert DigitPlace(less, n - 1) && DigitPlace(text, n - 1) && DigitPlace(text, n);
    }
  }

  /** A text without a sign is an integer if and only if its stripped part is such digits. */
  lemma ParseUnsigned(text: string, digits: string)
    requires Strip(text) == digits && (digits == "" || (digits[0] != '-' && digits[0] != '+'))
    ensures ParseInt(text).Some? <==> DigitText(digits)
    ensures DigitText(digits) ==> ParseInt(text) == Some(SpelledBy(digits, |digits|))
  {
    hide Strip, ParseDigits, DigitText, SpelledBy;
    ParseDigitsExactly(digits);
  }

  /** Behind a sign, what follows it must be such digits. */
  lemma ParseSigned(text: string, sign: char, digits: string)
    requires Strip(text) == [sign] + digits && (sign == '-' || sign == '+')
    ensures ParseInt(text).Some? <==> DigitText(digits)
    ensures DigitText(digits) ==>
      ParseInt(text) == Some(if sign == '-' then -SpelledBy(digits, |digits|) else SpelledBy(digits, |digits|))
  {
    hide Strip, ParseDigits, DigitText, SpelledBy;
    ParseDigitsExactly(digits);
    assert ([sign] + digits)[1..] == digits;
  }
}
