/**
 * The two text forms both views build from a local date: "Y-MM-DD" (the year
 * is written as `String(year)`, without padding) and "HH:MM".
 */
module Render {
  import opened Strings
  import opened LocalTime

  /** `${getFullYear()}-${pad(getMonth() + 1)}-${pad(getDate())}` */
  function DateText(t: Instant): string {
    DayText(CivilDateOf(t))
  }

  function DayText(d: CivilDate): string
    requires ValidDate(d)
  {
    IntToString(d.year) + "-" + Pad2(d.month) + "-" + Pad2(d.day)
  }

  /** `${pad(getHours())}:${pad(getMinutes())}` */
  function ClockText(t: Instant): string {
    Pad2(HoursOf(t)) + ":" + Pad2(MinutesOf(t))
  }

  /** "HH:MM" is five characters whose two digit pairs are the hour and the minute. */
  lemma ClockTextFields(t: Instant)
    ensures var r := ClockText(t);
            && |r| == 5 && r[2] == ':'
            && r[..2] == Pad2(HoursOf(t)) && r[3..] == Pad2(MinutesOf(t))
            && AllDigits(r[..2]) && DigitsValue(r[..2]) == HoursOf(t)
            && AllDigits(r[3..]) && DigitsValue(r[3..]) == MinutesOf(t)
  {
    var r := ClockText(t);
    assert r[..2] == Pad2(HoursOf(t));
    assert r[3..] == Pad2(MinutesOf(t));
  }

  /** "HH:MM" is five characters with the colon in the middle. */
  lemma ClockTextShape(t: Instant)
    ensures |ClockText(t)| == 5 && ClockText(t)[2] == ':'
  {
  }

  /** For four-digit years, "YYYY-MM-DD" is ten characters. */
  lemma DateTextLength(t: Instant)
    requires 1000 <= FullYear(t) <= 9999
    ensures |DateText(t)| == 10
  {
    FourDigitDecimal(FullYear(t));
  }

  /** For four-digit years, "YYYY-MM-DD" is ten characters whose digit groups are the year, month and day. */
  lemma DateTextFields(t: Instant)
    requires 1000 <= FullYear(t) <= 9999
    ensures var r := DateText(t);
            && |r| == 10 && r[4] == '-' && r[7] == '-'
            && r[..4] == IntToString(FullYear(t)) && r[5..7] == Pad2(MonthOf(t)) && r[8..] == Pad2(DateOf(t))
            && AllDigits(r[..4]) && DigitsValue(r[..4]) == FullYear(t)
            && AllDigits(r[5..7]) && DigitsValue(r[5..7]) == MonthOf(t)
            && AllDigits(r[8..]) && DigitsValue(r[8..]) == DateOf(t)
  {
    var d := CivilDateOf(t);
    DatePieces(d.year, d.month, d.day);
  }

  lemma DatePieces(y: int, m: nat, d: nat)
    requires 1000 <= y <= 9999 && m < 100 && d < 100
    ensures var r := IntToString(y) + "-" + Pad2(m) + "-" + Pad2(d);
            && |r| == 10 && r[4] == '-' && r[7] == '-'
            && r[..4] == IntToString(y) && r[5..7] == Pad2(m) && r[8..] == Pad2(d)
            && AllDigits(r[..4]) && DigitsValue(r[..4]) == y
            && AllDigits(r[5..7]) && DigitsValue(r[5..7]) == m
            && AllDigits(r[8..]) && DigitsValue(r[8..]) == d
  {
    FourDigitDecimal(y);
    DecimalRoundTrip(y);
    var r := IntToString(y) + "-" + Pad2(m) + "-" + Pad2(d);
    assert r[..4] == IntToString(y);
    assert r[5..7] == Pad2(m);
    assert r[8..] == Pad2(d);
  }
}
