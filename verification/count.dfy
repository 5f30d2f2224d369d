/**
 * The numeric count typed before or inside a key chain: which key texts
 * count as digits, and how the retained digit string becomes a number.
 */
module Count {
  import opened Wrappers

  /** Python's `string.digits`. */
  const Digits: string := "0123456789"

  predicate IsDigitChar(ch: char)
  {
    '0' <= ch <= '9'
  }

  /** `t` occurs in `s` starting at position `i`. */
  predicate OccursAt(t: string, s: string, i: int)
  {
    0 <= i && i + |t| <= |s| && s[i..i + |t|] == t
  }

  /** `t` occurs in `s` as a contiguous run (Python's `t in s` on strings). */
  predicate IsSubstring(t: string, s: string)
  {
    exists i | 0 <= i <= |s| :: OccursAt(t, s, i)
  }

  /** The digit test as written: `txt in string.digits`, a substring test. */
  predicate InDigitsAsWritten(txt: string)
  {
    IsSubstring(txt, Digits)
  }

  /** The digit test as intended: the text is exactly one decimal digit. */
  predicate IsDigitText(txt: string)
  {
    |txt| == 1 && IsDigitChar(txt[0])
  }

  /**
   * The substring test lets through texts that are not one digit: the
   * empty text and runs such as "12". For those `_match_count`'s
   * `assert len(txt) == 1` raises instead of rejecting the key.
   */
  lemma AsWrittenAcceptsNonDigits()
    ensures InDigitsAsWritten("") && !IsDigitText("")
    ensures InDigitsAsWritten("12") && !IsDigitText("12")
  {
    assert OccursAt("", Digits, 0);
    assert OccursAt("12", Digits, 1);
  }

  /**
   * On one-character texts (the only ones `_match_count`'s
   * `assert len(txt) == 1` lets through) the intended test and the
   * written test agree.
   */
  lemma DigitTextMatchesAsWritten(txt: string)
    ensures IsDigitText(txt) <==> InDigitsAsWritten(txt) && |txt| == 1
  {
    if IsDigitText(txt) {
      var i := txt[0] as int - '0' as int;
      assert Digits[i] == txt[0] by {
        assert i == 0 || i == 1 || i == 2 || i == 3 || i == 4
          || i == 5 || i == 6 || i == 7 || i == 8 || i == 9;
      }
      assert Digits[i..i + 1] == txt;
      assert OccursAt(txt, Digits, i);
    }
    if InDigitsAsWritten(txt) && |txt| == 1 {
      var i :| 0 <= i <= |Digits| && OccursAt(txt, Digits, i);
      assert txt[0] == Digits[i];
      assert IsDigitChar(Digits[i]) by {
        assert i == 0 || i == 1 || i == 2 || i == 3 || i == 4
          || i == 5 || i == 6 || i == 7 || i == 8 || i == 9;
      }
    }
  }

  /** Every character of the count string is a decimal digit. */
  predicate AllDigits(c: string)
  {
    forall i | 0 <= i < |c| :: IsDigitChar(c[i])
  }

  /** A well-formed count: decimal digits with no leading zero. */
  predicate ValidCount(c: string)
  {
    AllDigits(c) && (c == "" || c[0] != '0')
  }

  function DigitValue(ch: char): (v: nat)
    requires IsDigitChar(ch)
    ensures v < 10
  {
    ch as int - '0' as int
  }

  /** The value of a decimal digit string, most significant digit first. */
  function DecimalValue(c: string): nat
    requires AllDigits(c)
  {
    if |c| == 0 then 0
    else DecimalValue(c[..|c| - 1]) * 10 + DigitValue(c[|c| - 1])
  }

  /** `int(self._count) if self._count else None`. */
  function ParseCount(c: string): (r: Option<nat>)
    requires AllDigits(c)
    ensures r.None? <==> c == ""
  {
    if c == "" then None else Some(DecimalValue(c))
  }

  function DigitChar(v: nat): (ch: char)
    requires v < 10
    ensures IsDigitChar(ch) && DigitValue(ch) == v
  {
    ('0' as int + v) as char
  }

  /** The decimal rendering of a number, most significant digit first, without leading zeros. */
  function ToDecimal(n: nat): (c: string)
    ensures AllDigits(c) && |c| > 0
    decreases n
  {
    if n < 10 then [DigitChar(n)] else ToDecimal(n / 10) + [DigitChar(n % 10)]
  }

  /** The rendering of a positive number has no leading zero. */
  lemma {:induction false} ToDecimalLeading(n: nat)
    ensures n > 0 ==> ToDecimal(n)[0] != '0'
    decreases n
  {
    if n >= 10 {
      ToDecimalLeading(n / 10);
    }
  }

  /**
   * Reading back a rendered number gives the number, and the rendering of
   * a positive number is a well-formed count.
   */
  lemma {:induction false} DecimalRoundTrip(n: nat)
    ensures ParseCount(ToDecimal(n)) == Some(n)
    ensures n > 0 ==> ValidCount(ToDecimal(n))
    decreases n
  {
    var c := ToDecimal(n);
    if n < 10 {
      assert c[..0] == "";
      assert DecimalValue(c) == DecimalValue(c[..0]) * 10 + DigitValue(c[0]);
    } else {
      DecimalRoundTrip(n / 10);
      assert c[..|c| - 1] == ToDecimal(n / 10);
      assert DecimalValue(c) == DecimalValue(c[..|c| - 1]) * 10 + DigitValue(DigitChar(n % 10));
    }
    ToDecimalLeading(n);
  }

  /**
   * Every well-formed non-empty count is the rendering of the number it
   * parses to, so parsing is one-to-one on well-formed counts.
   */
  lemma {:induction false} ValidCountRoundTrip(c: string)
    requires ValidCount(c) && c != ""
    ensures ToDecimal(DecimalValue(c)) == c
    decreases |c|
  {
    var v := DecimalValue(c);
    var d := c[|c| - 1];
    if |c| == 1 {
      assert c[..0] == "";
      assert v == DecimalValue(c[..0]) * 10 + DigitValue(d);
      assert [DigitChar(v)] == c;
    } else {
      var init := c[..|c| - 1];
      assert init[0] == c[0];
      ValidCountRoundTrip(init);
      PositiveFromFirstDigit(init);
      assert v / 10 == DecimalValue(init) && v % 10 == DigitValue(d);
      assert c == init + [d];
    }
  }

  /** A valid count never parses to zero: the leading digit is never '0'. */
  lemma {:induction false} ValidCountPositive(c: string)
    requires ValidCount(c) && c != ""
    ensures ParseCount(c).Some? && ParseCount(c).value > 0
  {
    PositiveFromFirstDigit(c);
  }

  lemma {:induction false} PositiveFromFirstDigit(c: string)
    requires AllDigits(c) && |c| > 0 && c[0] != '0'
    ensures DecimalValue(c) > 0
  {
    if |c| > 1 {
      var init := c[..|c| - 1];
      assert init[0] == c[0];
      PositiveFromFirstDigit(init);
    }
  }
}
