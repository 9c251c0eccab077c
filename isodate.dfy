/**
 * The wire format of scheduled times: `Date.prototype.toISOString` and the
 * ECMAScript Date Time String Format that `new Date(string)` reads.
 * With the local time zone taken as UTC, a string without an offset and one
 * ending in "Z" denote the same instant.
 */
module IsoDate {
  import opened Wrappers
  import opened Strings
  import opened LocalTime

  /** A value read from the front of a string, and what follows it. */
  datatype Parsed<T> = Parsed(value: T, rest: string)

  /** A clock time as written after the "T" of a date-time string. */
  datatype Clock = Clock(hour: int, minute: int, second: int, millis: int)

  /** The year as `toISOString` writes it: four digits, or a sign and six digits outside 0..9999. */
  function IsoYear(y: int): string {
    if 0 <= y <= 9999 then PaddedDecimal(y, 4)
    else (if y < 0 then "-" else "+") + PaddedDecimal(if y < 0 then -y else y, 6)
  }

  function IsoDateText(d: CivilDate): string
    requires ValidDate(d)
  {
    IsoYear(d.year) + "-" + Pad2(d.month) + "-" + Pad2(d.day)
  }

  function IsoClockText(t: Instant): string {
    "T" + Pad2(HoursOf(t)) + ":" + Pad2(MinutesOf(t)) + ":" + Pad2(SecondsOf(t))
    + "." + PaddedDecimal(MillisOf(t), 3) + "Z"
  }

  /** `new Date(t).toISOString()`: "YYYY-MM-DDTHH:mm:ss.sssZ". */
  function FormatIso(t: Instant): string {
    IsoDateText(CivilDateOf(t)) + IsoClockText(t)
  }

  /** Exactly `n` decimal digits at the front of `s`. */
  function Digits(s: string, n: nat): (r: Option<Parsed<nat>>)
    ensures r.Some? ==> |r.value.rest| == |s| - n
  {
    if |s| >= n && AllDigits(s[..n]) then Some(Parsed(DigitsValue(s[..n]), s[n..])) else None
  }

  function ParseYear(s: string): (r: Option<Parsed<int>>)
    ensures r.Some? ==> |r.value.rest| < |s|
  {
    if |s| >= 1 && (s[0] == '+' || s[0] == '-') then
      match Digits(s[1..], 6)
      case None => None
      case Some(p) =>
        if s[0] == '-' && p.value == 0 then None  // "-000000" is not a year
        else Some(Parsed(if s[0] == '-' then -(p.value as int) else p.value as int, p.rest))
    else
      match Digits(s, 4)
      case None => None
      case Some(p) => Some(Parsed(p.value, p.rest))
  }

  /** "YYYY", "YYYY-MM" or "YYYY-MM-DD"; a missing month or day is 1. Ranges are not checked here. */
  function ParseDatePart(s: string): Option<Parsed<CivilDate>> {
    match ParseYear(s)
    case None => None
    case Some(py) =>
      if |py.rest| >= 1 && py.rest[0] == '-' then
        match Digits(py.rest[1..], 2)
        case None => None
        case Some(pm) =>
          if |pm.rest| >= 1 && pm.rest[0] == '-' then
            match Digits(pm.rest[1..], 2)
            case None => None
            case Some(pd) => Some(Parsed(CivilDate(py.value, pm.value, pd.value), pd.rest))
          else Some(Parsed(CivilDate(py.value, pm.value, 1), pm.rest))
      else Some(Parsed(CivilDate(py.value, 1, 1), py.rest))
  }

  /** An optional ".sss" (milliseconds); absent, it is 0. */
  function ParseMillisPart(s: string): Option<Parsed<int>> {
    if |s| >= 1 && s[0] == '.' then
      match Digits(s[1..], 3)
      case None => None
      case Some(p) => Some(Parsed(p.value as int, p.rest))
    else Some(Parsed(0, s))
  }

  /** An optional ":ss" followed by optional milliseconds; absent, both are 0. */
  function ParseSecondsPart(s: string): Option<Parsed<(int, int)>> {
    if |s| >= 1 && s[0] == ':' then
      match Digits(s[1..], 2)
      case None => None
      case Some(p) =>
        match ParseMillisPart(p.rest)
        case None => None
        case Some(q) => Some(Parsed((p.value as int, q.value), q.rest))
    else Some(Parsed((0, 0), s))
  }

  /** "HH:mm", "HH:mm:ss" or "HH:mm:ss.sss". Ranges are not checked here. */
  function ParseClock(s: string): Option<Parsed<Clock>> {
    match Digits(s, 2)
    case None => None
    case Some(ph) =>
      if |ph.rest| >= 1 && ph.rest[0] == ':' then
        match Digits(ph.rest[1..], 2)
        case None => None
        case Some(pm) =>
          match ParseSecondsPart(pm.rest)
          case None => None
          case Some(ps) => Some(Parsed(Clock(ph.value, pm.value, ps.value.0, ps.value.1), ps.rest))
      else None
  }

  /** What may end a date-time string: nothing (local time), "Z", or "+HH:mm" / "-HH:mm"; the result is the offset in minutes. */
  function ParseOffset(s: string): Option<int> {
    if s == "" || s == "Z" then Some(0)
    else if |s| == 6 && (s[0] == '+' || s[0] == '-') && s[3] == ':'
            && AllDigits(s[1..3]) && AllDigits(s[4..]) then
      var h := DigitsValue(s[1..3]);
      var m := DigitsValue(s[4..]);
      if h <= 23 && m <= 59 then Some(if s[0] == '-' then -(h * 60 + m) else h * 60 + m) else None
    else None
  }

  /** ECMAScript TimeClip: a time value beyond 8.64e15 ms is NaN. */
  function Clip(t: int): (r: Option<Instant>)
    ensures r.Some? <==> -MaxTime <= t <= MaxTime
    ensures r.Some? ==> r.value == t
  {
    if -MaxTime <= t <= MaxTime then Some(t) else None
  }

  predicate ClockInRange(c: Clock) {
    ValidClock(c.hour, c.minute, c.second, c.millis)
    || (c.hour == 24 && c.minute == 0 && c.second == 0 && c.millis == 0)
  }

  /**
   * `new Date(s).getTime()` for a string `s`: None stands for NaN ("Invalid Date").
   * Out-of-range fields and any text outside the format make the date invalid.
   */
  function ParseIso(s: string): (r: Option<Instant>)
    ensures r.Some? ==> -MaxTime <= r.value <= MaxTime
  {
    match ParseDatePart(s)
    case None => None
    case Some(pd) =>
      var d := pd.value;
      if !ValidDate(d) then None
      else if pd.rest == "" then Clip(MakeTime(d, 0, 0, 0, 0))
      else if pd.rest[0] != 'T' then None
      else
        match ParseClock(pd.rest[1..])
        case None => None
        case Some(pc) =>
          var c := pc.value;
          if !ClockInRange(c) then None
          else
            match ParseOffset(pc.rest)
            case None => None
            case Some(off) => Clip(MakeTime(d, c.hour, c.minute, c.second, c.millis) - off * MsPerMinute)
  }

  // ---------------------------------------------------------------------------
  // Round trip

  lemma DigitsPrefix(p: string, rest: string, n: nat)
    requires |p| == n && AllDigits(p)
    ensures Digits(p + rest, n) == Some(Parsed(DigitsValue(p), rest))
  {
    assert (p + rest)[..n] == p;
    assert (p + rest)[n..] == rest;
  }

  lemma Pow10Facts()
    ensures Pow10(2) == 100 && Pow10(3) == 1000 && Pow10(4) == 10000 && Pow10(6) == 1000000
  {
  }

  /** A year written with four digits is read back. */
  lemma ParseFourDigitYear(p: string, rest: string)
    requires |p| == 4 && AllDigits(p)
    ensures ParseYear(p + rest) == Some(Parsed(DigitsValue(p) as int, rest))
  {
    DigitsPrefix(p, rest, 4);
    assert (p + rest)[0] == p[0];
  }

  lemma ParseIsoYear(y: int, rest: string)
    requires -999999 <= y <= 999999
    ensures ParseYear(IsoYear(y) + rest) == Some(Parsed(y, rest))
  {
    if 0 <= y <= 9999 {
      Pow10Facts();
      ParseFourDigitYear(IsoYear(y), rest);
    } else {
      ParseSignedYear(y, rest);
    }
  }

  /** A year outside 0..9999 is written with a sign and six digits, and read back. */
  lemma ParseSignedYear(y: int, rest: string)
    requires -999999 <= y < 0 || 9999 < y <= 999999
    ensures ParseYear(IsoYear(y) + rest) == Some(Parsed(y, rest))
  {
    Pow10Facts();
    var digits := PaddedDecimal(if y < 0 then -y else y, 6);
    var s := IsoYear(y) + rest;
    assert s == [if y < 0 then '-' else '+'] + (digits + rest);
    assert s[1..] == digits + rest;
    DigitsPrefix(digits, rest, 6);
  }

  /** A separator character followed by `n` digits. */
  lemma SeparatorThenDigits(c: char, p: string, rest: string, n: nat)
    requires |p| == n && AllDigits(p)
    ensures |[c] + p + rest| >= 1 && ([c] + p + rest)[0] == c
    ensures Digits(([c] + p + rest)[1..], n) == Some(Parsed(DigitsValue(p), rest))
  {
    assert ([c] + p + rest)[1..] == p + rest;
    DigitsPrefix(p, rest, n);
  }

  /** A date written as a year, "-MM" and "-DD" is read back. */
  lemma ParseDateFields(yearText: string, y: int, mm: string, dd: string, rest: string)
    requires |mm| == 2 && AllDigits(mm) && |dd| == 2 && AllDigits(dd)
    requires ParseYear(yearText + (['-'] + mm + (['-'] + dd + rest))) == Some(Parsed(y, ['-'] + mm + (['-'] + dd + rest)))
    ensures ParseDatePart(yearText + (['-'] + mm + (['-'] + dd + rest)))
            == Some(Parsed(CivilDate(y, DigitsValue(mm), DigitsValue(dd)), rest))
  {
    SeparatorThenDigits('-', mm, ['-'] + dd + rest, 2);
    SeparatorThenDigits('-', dd, rest, 2);
  }

  lemma ParseSecondsFields(ss: string, fff: string, rest: string)
    requires |ss| == 2 && AllDigits(ss) && |fff| == 3 && AllDigits(fff)
    ensures ParseSecondsPart([':'] + ss + (['.'] + fff + rest))
            == Some(Parsed((DigitsValue(ss) as int, DigitsValue(fff) as int), rest))
  {
    SeparatorThenDigits(':', ss, ['.'] + fff + rest, 2);
    SeparatorThenDigits('.', fff, rest, 3);
  }

  lemma ParseClockFields(hh: string, mm: string, ss: string, fff: string, rest: string)
    requires |hh| == 2 && AllDigits(hh) && |mm| == 2 && AllDigits(mm)
    requires |ss| == 2 && AllDigits(ss) && |fff| == 3 && AllDigits(fff)
    ensures ParseClock(hh + ([':'] + mm + ([':'] + ss + (['.'] + fff + rest))))
            == Some(Parsed(Clock(DigitsValue(hh), DigitsValue(mm), DigitsValue(ss), DigitsValue(fff)), rest))
  {
    var r2 := [':'] + ss + (['.'] + fff + rest);
    var r1 := [':'] + mm + r2;
    DigitsPrefix(hh, r1, 2);
    SeparatorThenDigits(':', mm, r2, 2);
    ParseSecondsFields(ss, fff, rest);
    ParseClockSteps(hh + r1, r1, r2, rest, DigitsValue(hh), DigitsValue(mm), DigitsValue(ss), DigitsValue(fff));
  }

  /** `ParseClock` is hours, a colon, minutes and the seconds part, in that order. */
  lemma ParseClockSteps(s: string, r1: string, r2: string, rest: string, h: nat, m: nat, sec: int, ms: int)
    requires Digits(s, 2) == Some(Parsed(h, r1)) && |r1| >= 1 && r1[0] == ':'
    requires Digits(r1[1..], 2) == Some(Parsed(m, r2))
    requires ParseSecondsPart(r2) == Some(Parsed((sec, ms), rest))
    ensures ParseClock(s) == Some(Parsed(Clock(h, m, sec, ms), rest))
  {
  }

  /** A valid time value lies in a year of at most six digits. */
  lemma YearOfValidTime(t: Instant)
    requires -MaxTime <= t <= MaxTime
    ensures -999999 <= FullYear(t) <= 999999
  {
    var d := CivilDateOf(t);
    DayNumberWithinYear(d);
    if d.year > 999999 {
      DaysBeforeYearMonotone(1000000, d.year);
      assert false;
    } else if d.year < -999999 {
      DaysBeforeYearMonotone(d.year + 1, -999999);
      assert false;
    }
  }

  /** "HH:mm:ss" with nothing after it. */
  lemma ParseClockHms(hh: string, mm: string, ss: string)
    requires |hh| == 2 && AllDigits(hh) && |mm| == 2 && AllDigits(mm) && |ss| == 2 && AllDigits(ss)
    ensures ParseClock(hh + ([':'] + mm + ([':'] + ss)))
            == Some(Parsed(Clock(DigitsValue(hh), DigitsValue(mm), DigitsValue(ss), 0), ""))
  {
    var r2 := [':'] + ss;
    var r1 := [':'] + mm + r2;
    DigitsPrefix(hh, r1, 2);
    SeparatorThenDigits(':', mm, r2, 2);
    ParseSecondsOnly(ss);
    ParseClockSteps(hh + r1, r1, r2, "", DigitsValue(hh), DigitsValue(mm), DigitsValue(ss), 0);
  }

  lemma ParseSecondsOnly(ss: string)
    requires |ss| == 2 && AllDigits(ss)
    ensures ParseSecondsPart([':'] + ss) == Some(Parsed((DigitsValue(ss) as int, 0), ""))
  {
    assert [':'] + ss == [':'] + ss + "";
    SeparatorThenDigits(':', ss, "", 2);
    assert ParseMillisPart("") == Some(Parsed(0, ""));
  }

  /** How `ParseIso` reads a date part followed by "T" and a clock time with no offset (local time). */
  lemma ParseIsoDateTimeLocal(s: string, d: CivilDate, clock: string, c: Clock)
    requires ParseDatePart(s) == Some(Parsed(d, ['T'] + clock)) && ValidDate(d)
    requires ParseClock(clock) == Some(Parsed(c, "")) && ClockInRange(c)
    ensures ParseIso(s) == Clip(MakeTime(d, c.hour, c.minute, c.second, c.millis))
  {
    var rest := ['T'] + clock;
    assert rest != "" && rest[0] == 'T' && rest[1..] == clock;
    var t := MakeTime(d, c.hour, c.minute, c.second, c.millis);
    assert ParseOffset("") == Some(0);
    assert t - 0 * MsPerMinute == t;
  }

  /** How `ParseIso` reads a date part followed by "T", a clock time and "Z". */
  lemma ParseIsoDateTimeZ(s: string, d: CivilDate, clock: string, c: Clock)
    requires ParseDatePart(s) == Some(Parsed(d, ['T'] + clock)) && ValidDate(d)
    requires ParseClock(clock) == Some(Parsed(c, "Z")) && ClockInRange(c)
    ensures ParseIso(s) == Clip(MakeTime(d, c.hour, c.minute, c.second, c.millis))
  {
    var rest := ['T'] + clock;
    assert rest != "" && rest[0] == 'T' && rest[1..] == clock;
    var t := MakeTime(d, c.hour, c.minute, c.second, c.millis);
    assert ParseOffset("Z") == Some(0);
    assert t - 0 * MsPerMinute == t;
  }

  lemma RightNestFive(a: string, b: string, c: string, d: string, e: string, rest: string)
    ensures a + b + c + d + e + rest == a + (b + c + (d + e + rest))
  {
  }

  /** `FormatIso` with its pieces nested to the right, as the parser consumes them. */
  lemma FormatIsoPieces(t: Instant)
    ensures FormatIso(t)
      == IsoYear(FullYear(t)) + (['-'] + Pad2(MonthOf(t)) + (['-'] + Pad2(DateOf(t)) + (['T'] +
         (Pad2(HoursOf(t)) + ([':'] + Pad2(MinutesOf(t)) + ([':'] + Pad2(SecondsOf(t))
         + (['.'] + PaddedDecimal(MillisOf(t), 3) + "Z")))))))
  {
    var d := CivilDateOf(t);
    assert FormatIso(t) == IsoDateText(d) + IsoClockText(t);
    IsoPiecesNest(IsoYear(d.year), Pad2(d.month), Pad2(d.day),
                  Pad2(HoursOf(t)), Pad2(MinutesOf(t)), Pad2(SecondsOf(t)), PaddedDecimal(MillisOf(t), 3));
  }

  lemma IsoPiecesNest(yy: string, mo: string, dd: string, hh: string, mi: string, ss: string, fff: string)
    ensures yy + "-" + mo + "-" + dd + ("T" + hh + ":" + mi + ":" + ss + "." + fff + "Z")
      == yy + (['-'] + mo + (['-'] + dd + (['T'] + (hh + ([':'] + mi + ([':'] + ss + (['.'] + fff + "Z")))))))
  {
    var clock := hh + ([':'] + mi + ([':'] + ss + (['.'] + fff + "Z")));
    assert "T" + hh + ":" + mi + ":" + ss + "." + fff + "Z" == ['T'] + clock by {
      RightNestFive(hh, [':'], mi, [':'], ss, ['.'] + fff + "Z");
    }
    RightNestFive(yy, ['-'], mo, ['-'], dd, ['T'] + clock);
  }

  /** What `toISOString` writes, `new Date(...)` reads back as the same instant. */
  lemma IsoRoundTrip(t: Instant)
    requires -MaxTime <= t <= MaxTime
    ensures ParseIso(FormatIso(t)) == Some(t)
  {
    var d := CivilDateOf(t);
    YearOfValidTime(t);
    Pow10Facts();
    var yy, mo, dd := IsoYear(d.year), Pad2(d.month), Pad2(d.day);
    var hh, mi, ss, fff := Pad2(HoursOf(t)), Pad2(MinutesOf(t)), Pad2(SecondsOf(t)), PaddedDecimal(MillisOf(t), 3);
    var clock := hh + ([':'] + mi + ([':'] + ss + (['.'] + fff + "Z")));
    var afterYear := ['-'] + mo + (['-'] + dd + (['T'] + clock));
    FormatIsoPieces(t);
    ParseIsoYear(d.year, afterYear);
    ParseDateFields(yy, d.year, mo, dd, ['T'] + clock);
    ParseClockFields(hh, mi, ss, fff, "Z");
    var c := Clock(HoursOf(t), MinutesOf(t), SecondsOf(t), MillisOf(t));
    ParseIsoDateTimeZ(FormatIso(t), d, clock, c);
    Decompose(t);
  }
}
