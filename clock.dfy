/**
 * The mm:ss text of the round clock (`formatTime`, main.js lines 97-105).
 */
module Clock {
  import opened JsPrims

  /** `v.toString().padStart(2, "0")`. */
  function TwoDigitField(v: int): (r: string)
    ensures |r| >= 2
    ensures 0 <= v < 100 ==> |r| == 2
    ensures v < 0 ==> r[0] == '-'
    ensures |r| == Max(2, |IntToString(v)|)
    ensures |IntToString(v)| >= 2 ==> r == IntToString(v)
    ensures 0 <= v < 10 ==> r == ['0', DigitChar(v)]
  {
    var digits := IntToString(v);
    assert 0 <= v < 100 ==> |digits| <= 2;
    var r := PadStart(digits, 2, '0');
    assert 0 <= v < 10 ==> r == ['0', DigitChar(v)] by {
      if 0 <= v < 10 {
        assert digits == [DigitChar(v)];
        PadStartPrefix(digits, 2, '0');
        assert r == [r[0], r[1]];
      }
    }
    r
  }

  /** The field of a non-negative value is a numeral of that value. */
  lemma TwoDigitFieldValue(v: int)
    requires v >= 0
    ensures IsDigits(TwoDigitField(v)) && DecimalValue(TwoDigitField(v)) == v
  {
    NatToDecimalValue(v);
    PadStartValue(NatToDecimal(v), 2);
  }

  /** `a + ":" + b` splits back into `a` and a two-character `b` around the ':' third from the end. */
  lemma Joined(a: string, b: string, r: string)
    requires |b| == 2 && r == a + ":" + b
    ensures |r| == |a| + 3 && r[|r| - 3] == ':' && r[..|r| - 3] == a && r[|r| - 2..] == b
  {
    assert r[..|a|] == a;
    assert r[|a| + 1..] == b;
  }

  /** The minutes field of `formatTime`: `Math.floor(t / 60)`, padded. */
  function MinutesText(t: int): (r: string)
    ensures |r| >= 2
    ensures 0 <= t < 6000 ==> |r| == 2
    ensures t < 0 ==> r[0] == '-'
  {
    TwoDigitField(t / 60)
  }

  /** The seconds field of `formatTime`: `Math.max(0, t % 60)`, padded; always two characters. */
  function SecondsText(t: int): (r: string)
    ensures |r| == 2
  {
    TwoDigitField(Max(0, JsRem(t, 60)))
  }

  /** For a non-negative time the minutes field is the numeral of the whole minutes. */
  lemma MinutesValue(t: int)
    requires t >= 0
    ensures IsDigits(MinutesText(t)) && DecimalValue(MinutesText(t)) == t / 60
  {
    TwoDigitFieldValue(t / 60);
  }

  /** The seconds field is the numeral of the leftover seconds, and 0 for a negative time. */
  lemma SecondsValue(t: int)
    ensures IsDigits(SecondsText(t))
    ensures DecimalValue(SecondsText(t)) == if t >= 0 then t % 60 else 0
  {
    TwoDigitFieldValue(Max(0, JsRem(t, 60)));
  }

  /**
   * `formatTime(totalSeconds)`: whole minutes (rounded down) and the
   * remaining seconds (never below 0), each written in decimal and padded with
   * zeros to two digits, joined by ':'.
   */
  function FormatTime(t: int): (r: string)
    ensures |r| >= 5 && r[|r| - 3] == ':'
    ensures 0 <= t < 6000 ==> |r| == 5
  {
    var r := MinutesText(t) + ":" + SecondsText(t);
    Joined(MinutesText(t), SecondsText(t), r);
    r
  }

  /**
   * The text is the minutes field, ':' and the two-character seconds field,
   * and each field can be cut back out of it.
   */
  lemma FormatTimeFields(t: int)
    ensures var r := FormatTime(t);
      && |r| >= 5 && r[|r| - 3] == ':'
      && r[..|r| - 3] == MinutesText(t) && r[|r| - 2..] == SecondsText(t)
  {
    Joined(MinutesText(t), SecondsText(t), FormatTime(t));
  }

  /**
   * For a non-negative time the two fields are numerals of the whole minutes
   * and of the leftover seconds, below 60, which add back up to t.
   */
  lemma FormatTimeReadsBack(t: int)
    requires t >= 0
    ensures IsDigits(MinutesText(t)) && IsDigits(SecondsText(t))
    ensures DecimalValue(SecondsText(t)) < 60
    ensures 60 * DecimalValue(MinutesText(t)) + DecimalValue(SecondsText(t)) == t
  {
    MinutesValue(t);
    SecondsValue(t);
    Recombine(t, t / 60, t % 60);
  }

  /** Whole minutes and leftover seconds add back up to the time. */
  lemma Recombine(t: int, minutes: int, seconds: int)
    requires t >= 0 && minutes == t / 60 && seconds == t % 60
    ensures 60 * minutes + seconds == t && seconds < 60
  {
  }

  /** Equal texts have equal fields. */
  lemma SameFields(t1: int, t2: int)
    requires FormatTime(t1) == FormatTime(t2)
    ensures MinutesText(t1) == MinutesText(t2) && SecondsText(t1) == SecondsText(t2)
  {
    SplitUnique(MinutesText(t1), SecondsText(t1), MinutesText(t2), SecondsText(t2));
  }

  /** Two joins with two-character right parts agree exactly when both parts do. */
  lemma SplitUnique(a1: string, b1: string, a2: string, b2: string)
    requires |b1| == 2 && |b2| == 2 && a1 + ":" + b1 == a2 + ":" + b2
    ensures a1 == a2 && b1 == b2
  {
    var r := a1 + ":" + b1;
    Joined(a1, b1, r);
    Joined(a2, b2, r);
  }

  /** Distinct non-negative times are shown as distinct texts. */
  lemma FormatTimeInjective(t1: int, t2: int)
    requires t1 >= 0 && t2 >= 0 && FormatTime(t1) == FormatTime(t2)
    ensures t1 == t2
  {
    SameFields(t1, t2);
    FormatTimeReadsBack(t1);
    FormatTimeReadsBack(t2);
  }

  /** Below 100 minutes the text is exactly MM:SS. */
  lemma FormatTimeWidth(t: int)
    requires 0 <= t < 6000
    ensures |FormatTime(t)| == 5
  {
  }

  /** A negative time shows a negative minute count and zero seconds. */
  lemma FormatTimeNegative(t: int)
    requires t < 0
    ensures var r := FormatTime(t);
      r[0] == '-' && r[|r| - 2..] == "00"
  {
    FormatTimeFields(t);
    assert Max(0, JsRem(t, 60)) == 0;
    assert SecondsText(t) == "00";
  }
}
