/**
 * The list view: the date and time renderers, the conversion of the form's
 * date and time inputs to the ISO string sent to the server, and the form
 * state behind adding, editing, deleting and dragging todos.
 */
module TodoList {
  import opened Wrappers
  import opened Strings
  import opened LocalTime
  import opened IsoDate
  import opened Todos
  import opened TodoContext
  import opened Render

  // ---------------------------------------------------------------------------
  // Renderers

  predicate AtMidnight(t: Instant) {
    HoursOf(t) == 0 && MinutesOf(t) == 0
  }

  /** `formatDateTime`: "No date set", the date alone at midnight, or the date, a space and "HH:MM". */
  function FormatDateTime(scheduledAt: Option<Instant>): (r: string)
    ensures scheduledAt.None? ==> r == "No date set"
  {
    match scheduledAt
    case None => "No date set"
    case Some(t) => if AtMidnight(t) then DateText(t) else DateText(t) + " " + ClockText(t)
  }

  /** `getDateFromISO`: "" without a time, else the local date. */
  function GetDateFromIso(scheduledAt: Option<Instant>): (r: string)
    ensures scheduledAt.None? <==> r == ""
  {
    if scheduledAt.None? then "" else DateText(scheduledAt.value)
  }

  /** `getTimeFromISO`: "" without a time, else the local "HH:MM". */
  function GetTimeFromIso(scheduledAt: Option<Instant>): (r: string)
    ensures scheduledAt.None? <==> r == ""
    ensures scheduledAt.Some? ==> |r| == 5
  {
    if scheduledAt.None? then ""
    else
      ClockTextFields(scheduledAt.value);
      ClockText(scheduledAt.value)
  }

  /** The list label is the edit form's date, followed by its time unless that is midnight. */
  lemma FormatDateTimeFromParts(t: Instant)
    ensures FormatDateTime(Some(t))
            == GetDateFromIso(Some(t)) + (if AtMidnight(t) then "" else " " + GetTimeFromIso(Some(t)))
  {
    if AtMidnight(t) {
      assert DateText(t) + "" == DateText(t);
    }
  }

  /** For four-digit years the label is "YYYY-MM-DD" at midnight and "YYYY-MM-DD HH:MM" otherwise, all fields padded. */
  lemma FormatDateTimeShape(t: Instant)
    requires 1000 <= FullYear(t) <= 9999
    ensures AtMidnight(t) ==> |FormatDateTime(Some(t))| == 10
    ensures !AtMidnight(t) ==> |FormatDateTime(Some(t))| == 16 && FormatDateTime(Some(t))[10] == ' '
                               && FormatDateTime(Some(t))[13] == ':'
  {
    DateTextLength(t);
    ClockTextShape(t);
    if !AtMidnight(t) {
      JoinedShape(DateText(t), ClockText(t));
    }
  }

  lemma JoinedShape(date: string, clock: string)
    requires |date| == 10 && |clock| == 5 && clock[2] == ':'
    ensures var r := date + " " + clock; |r| == 16 && r[10] == ' ' && r[13] == ':'
  {
    var r := date + " " + clock;
    assert r[13] == clock[2];
  }

  // ---------------------------------------------------------------------------
  // createLocalDateISO

  /** The five numbers read from the inputs, each `Number(piece)`. */
  datatype LocalFields = LocalFields(year: int, month: int, day: int, hours: int, minutes: int)

  /** `Number(parts[i])`; a missing piece is `Number(undefined)`, which is NaN. */
  function Piece(parts: seq<string>, i: nat): Option<int> {
    if i < |parts| then JsNumber(parts[i]) else None
  }

  /** Split the date on "-" and the time on ":"; None when any of the five numbers is NaN. */
  function ReadFields(dateStr: string, timeStr: string): Option<LocalFields> {
    var dp := Split(dateStr, '-');
    var tp := Split(timeStr, ':');
    FieldsFrom(Piece(dp, 0), Piece(dp, 1), Piece(dp, 2), Piece(tp, 0), Piece(tp, 1))
  }

  /** The five numbers, unless one of them is NaN. */
  function FieldsFrom(y: Option<int>, m: Option<int>, d: Option<int>, h: Option<int>, mi: Option<int>): Option<LocalFields> {
    if y.Some? && m.Some? && d.Some? && h.Some? && mi.Some? then
      Some(LocalFields(y.value, m.value, d.value, h.value, mi.value))
    else None
  }

  /**
   * The time value `new Date(year, month0, day, h, min, 0)` computes from
   * finite fields before TimeClip: a month outside 0..11 rolls into the year,
   * a day outside the month rolls into the neighbouring months, and hours and
   * minutes are added as they are.
   */
  function LocalDateValue(year: int, month0: int, day: int, h: int, min: int): Instant {
    (DayNumber(CivilDate(year + month0 / 12, month0 % 12 + 1, 1)) + day - 1) * MsPerDay
    + h * MsPerHour + min * MsPerMinute
  }

  /** The `Date` constructor reads a year from 0 to 99 as 1900 to 1999. */
  function ConstructorYear(y: int): (r: int)
    ensures 0 <= y <= 99 ==> r == 1900 + y
    ensures !(0 <= y <= 99) ==> r == y
  {
    if 0 <= y <= 99 then 1900 + y else y
  }

  /** The instant for fields and a year; None for an invalid date. */
  function FieldsInstant(year: int, f: LocalFields): Option<Instant> {
    Clip(LocalDateValue(year, f.month - 1, f.day, f.hours, f.minutes))
  }

  /**
   * `createLocalDateISO` as the code has it: None stands for the RangeError
   * that `toISOString` throws on an invalid date.
   */
  function CreateLocalDateIsoAsWritten(dateStr: string, timeStr: string): Option<string> {
    match ReadFields(dateStr, timeStr)
    case None => None
    case Some(f) =>
      match FieldsInstant(ConstructorYear(f.year), f)
      case None => None
      case Some(t) => Some(FormatIso(t))
  }

  /** `createLocalDateISO` with the year taken as typed (the form handlers use this one). */
  function CreateLocalDateIso(dateStr: string, timeStr: string): Option<string> {
    match ReadFields(dateStr, timeStr)
    case None => None
    case Some(f) =>
      match FieldsInstant(f.year, f)
      case None => None
      case Some(t) => Some(FormatIso(t))
  }

  /** The two agree on every input whose year is not a two-digit number. */
  lemma CreateLocalDateIsoAgreement(dateStr: string, timeStr: string)
    requires ReadFields(dateStr, timeStr).None? || !(0 <= ReadFields(dateStr, timeStr).value.year <= 99)
    ensures CreateLocalDateIsoAsWritten(dateStr, timeStr) == CreateLocalDateIso(dateStr, timeStr)
  {
  }

  /** What a date input holds, "YYYY-MM-DD", and what a time input holds, "HH:MM". */
  function DateInput(y: nat, m: nat, d: nat): string {
    PaddedDecimal(y, 4) + "-" + Pad2(m) + "-" + Pad2(d)
  }

  function TimeInput(h: nat, min: nat): string {
    Pad2(h) + ":" + Pad2(min)
  }

  predicate WellFormed(y: int, m: int, d: int, h: int, min: int) {
    0 <= y <= 9999 && ValidDate(CivilDate(y, m, d)) && 0 <= h < 24 && 0 <= min < 60
  }

  lemma DigitsLackSeparator(s: string, c: char)
    requires AllDigits(s) && !IsDigit(c)
    ensures Lacks(s, c)
  {
  }

  /** The inputs are read back as the numbers they were written from. */
  lemma ReadInputs(y: nat, m: nat, d: nat, h: nat, min: nat)
    requires WellFormed(y, m, d, h, min)
    ensures ReadFields(DateInput(y, m, d), TimeInput(h, min)) == Some(LocalFields(y, m, d, h, min))
  {
    DateInputPieces(y, m, d);
    TimeInputPieces(h, min);
    ReadPieces(DateInput(y, m, d), TimeInput(h, min), PaddedDecimal(y, 4), Pad2(m), Pad2(d), Pad2(h), Pad2(min));
    assert JsNumber(PaddedDecimal(y, 4)) == Some(y) && JsNumber(Pad2(m)) == Some(m) && JsNumber(Pad2(d)) == Some(d);
    assert JsNumber(Pad2(h)) == Some(h) && JsNumber(Pad2(min)) == Some(min);
  }

  lemma ReadPieces(dateStr: string, timeStr: string, a: string, b: string, c: string, e: string, f: string)
    requires Split(dateStr, '-') == [a, b, c] && Split(timeStr, ':') == [e, f]
    ensures ReadFields(dateStr, timeStr) == FieldsFrom(JsNumber(a), JsNumber(b), JsNumber(c), JsNumber(e), JsNumber(f))
  {
    var dp, tp := Split(dateStr, '-'), Split(timeStr, ':');
    assert Piece(dp, 0) == JsNumber(a) && Piece(dp, 1) == JsNumber(b) && Piece(dp, 2) == JsNumber(c);
    assert Piece(tp, 0) == JsNumber(e) && Piece(tp, 1) == JsNumber(f);
  }

  lemma DateInputPieces(y: nat, m: nat, d: nat)
    ensures Split(DateInput(y, m, d), '-') == [PaddedDecimal(y, 4), Pad2(m), Pad2(d)]
  {
    var yy, mm, dd := PaddedDecimal(y, 4), Pad2(m), Pad2(d);
    DigitsLackSeparator(yy, '-');
    DigitsLackSeparator(mm, '-');
    DigitsLackSeparator(dd, '-');
    SplitThree(yy, mm, dd, '-');
    assert DateInput(y, m, d) == yy + ['-'] + mm + ['-'] + dd;
  }

  lemma TimeInputPieces(h: nat, min: nat)
    ensures Split(TimeInput(h, min), ':') == [Pad2(h), Pad2(min)]
  {
    var hh, mi := Pad2(h), Pad2(min);
    DigitsLackSeparator(hh, ':');
    DigitsLackSeparator(mi, ':');
    SplitTwo(hh, mi, ':');
    assert TimeInput(h, min) == hh + [':'] + mi;
  }

  /** A four-digit year is written the same padded or not. */
  lemma FourDigitPadded(y: nat)
    requires 1000 <= y <= 9999
    ensures PaddedDecimal(y, 4) == IntToString(y)
  {
    FourDigitDecimal(y);
  }

  /** For in-range fields the constructor's arithmetic is `MakeTime` of that date and clock. */
  lemma LocalDateValueOfDate(y: int, m: int, d: int, h: int, min: int)
    requires 1 <= m <= 12
    ensures LocalDateValue(y, m - 1, d, h, min) == MakeTime(CivilDate(y, m, d), h, min, 0, 0)
  {
    assert (m - 1) / 12 == 0 && (m - 1) % 12 == m - 1;
  }

  /** Every day of the years 0 to 9999 is a valid time value. */
  lemma FourDigitYearsInRange(d: CivilDate, h: int, min: int)
    requires ValidDate(d) && 0 <= d.year <= 9999 && 0 <= h < 24 && 0 <= min < 60
    ensures -MaxTime <= MakeTime(d, h, min, 0, 0) <= MaxTime
  {
    DayNumberWithinYear(d);
    DaysBeforeYearMonotone(0, d.year);
    DaysBeforeYearMonotone(d.year + 1, 10000);
  }

  /**
   * A date and a time typed into the form become an ISO string that denotes
   * exactly that local date and clock time.
   */
  lemma CreateLocalDateIsoDenotes(y: nat, m: nat, d: nat, h: nat, min: nat)
    requires WellFormed(y, m, d, h, min)
    ensures var r := CreateLocalDateIso(DateInput(y, m, d), TimeInput(h, min));
            && r.Some? && ParseIso(r.value) == Some(MakeTime(CivilDate(y, m, d), h, min, 0, 0))
  {
    var t := MakeTime(CivilDate(y, m, d), h, min, 0, 0);
    ReadInputs(y, m, d, h, min);
    LocalDateValueOfDate(y, m, d, h, min);
    FourDigitYearsInRange(CivilDate(y, m, d), h, min);
    CreateLocalDateIsoOf(DateInput(y, m, d), TimeInput(h, min), LocalFields(y, m, d, h, min), t);
    IsoRoundTrip(t);
  }

  /** Fields read from the inputs that give a valid instant are written out as that instant. */
  lemma CreateLocalDateIsoOf(dateStr: string, timeStr: string, f: LocalFields, t: Instant)
    requires ReadFields(dateStr, timeStr) == Some(f)
    requires FieldsInstant(f.year, f) == Some(t)
    ensures CreateLocalDateIso(dateStr, timeStr) == Some(FormatIso(t))
  {
  }

  lemma CreateLocalDateIsoAsWrittenOf(dateStr: string, timeStr: string, f: LocalFields, t: Instant)
    requires ReadFields(dateStr, timeStr) == Some(f)
    requires FieldsInstant(ConstructorYear(f.year), f) == Some(t)
    ensures CreateLocalDateIsoAsWritten(dateStr, timeStr) == Some(FormatIso(t))
  {
  }

  /**
   * Decoded with `getDateFromISO` and `getTimeFromISO`, the string gives back
   * the typed date and time (the date for four-digit years, since the decoder
   * does not pad the year).
   */
  lemma CreateLocalDateIsoRoundTrip(y: nat, m: nat, d: nat, h: nat, min: nat)
    requires WellFormed(y, m, d, h, min)
    ensures var r := CreateLocalDateIso(DateInput(y, m, d), TimeInput(h, min));
            && r.Some?
            && ParseIso(r.value).Some?
            && CivilDateOf(ParseIso(r.value).value) == CivilDate(y, m, d)
            && GetTimeFromIso(ParseIso(r.value)) == TimeInput(h, min)
            && (1000 <= y ==> GetDateFromIso(ParseIso(r.value)) == DateInput(y, m, d))
  {
    CreateLocalDateIsoDenotes(y, m, d, h, min);
    var t := MakeTime(CivilDate(y, m, d), h, min, 0, 0);
    MakeTimeFields(CivilDate(y, m, d), h, min, 0, 0);
    assert ClockText(t) == TimeInput(h, min);
    if 1000 <= y {
      FourDigitPadded(y);
      assert DateText(t) == DayText(CivilDate(y, m, d));
    }
  }

  /** As written, a two-digit year is shifted into the 1900s: the typed date is lost. */
  lemma CreateLocalDateIsoAsWrittenShiftsYear(y: nat, m: nat, d: nat, h: nat, min: nat)
    requires WellFormed(y, m, d, h, min) && y <= 99 && ValidDate(CivilDate(1900 + y, m, d))
    ensures var r := CreateLocalDateIsoAsWritten(DateInput(y, m, d), TimeInput(h, min));
            && r.Some? && ParseIso(r.value) == Some(MakeTime(CivilDate(1900 + y, m, d), h, min, 0, 0))
            && FullYear(ParseIso(r.value).value) == 1900 + y != y
  {
    ReadInputs(y, m, d, h, min);
    LocalDateValueOfDate(1900 + y, m, d, h, min);
    FourDigitYearsInRange(CivilDate(1900 + y, m, d), h, min);
    var t := MakeTime(CivilDate(1900 + y, m, d), h, min, 0, 0);
    assert ConstructorYear(y) == 1900 + y;
    CreateLocalDateIsoAsWrittenOf(DateInput(y, m, d), TimeInput(h, min), LocalFields(y, m, d, h, min), t);
    IsoRoundTrip(t);
    MakeTimeFields(CivilDate(1900 + y, m, d), h, min, 0, 0);
  }

  /**
   * The day a date typed into the form ends up on once the constructor has
   * read its year: the date itself from the year 100 on; for a two-digit year
   * the same day in the 1900s, and 29 February of the year 0, which 1900
   * lacks, rolls over to 1 March 1900.
   */
  function TypedDay(y: int, m: int, d: int): (c: CivilDate)
    requires ValidDate(CivilDate(y, m, d))
    ensures ValidDate(c)
    ensures 0 <= y <= 99 && ValidDate(CivilDate(1900 + y, m, d)) ==> c == CivilDate(1900 + y, m, d)
    ensures !(0 <= y <= 99) ==> c == CivilDate(y, m, d)
  {
    if !(0 <= y <= 99) then CivilDate(y, m, d)
    else if ValidDate(CivilDate(1900 + y, m, d)) then CivilDate(1900 + y, m, d)
    else CivilDate(1900, 3, 1)
  }

  /** 29 February of the year 0 is the only two-digit-year date with no counterpart in the 1900s. */
  lemma OnlyLeapDayOfYearZeroLacksShift(y: int, m: int, d: int)
    requires 0 <= y <= 99 && ValidDate(CivilDate(y, m, d)) && !ValidDate(CivilDate(1900 + y, m, d))
    ensures y == 0 && m == 2 && d == 29
  {
    LeapShift(y);
  }

  /** From the year 1 to 99, a leap year stays a leap year 1900 years on. */
  lemma LeapShift(y: int)
    ensures 1 <= y <= 99 && IsLeapYear(y) ==> IsLeapYear(1900 + y)
  {
  }

  /** What the code as written stores for any date and time typed into the form. */
  lemma CreateLocalDateIsoAsWrittenDenotes(y: nat, m: nat, d: nat, h: nat, min: nat)
    requires WellFormed(y, m, d, h, min)
    ensures var r := CreateLocalDateIsoAsWritten(DateInput(y, m, d), TimeInput(h, min));
            && r.Some? && ParseIso(r.value) == Some(MakeTime(TypedDay(y, m, d), h, min, 0, 0))
  {
    ReadInputs(y, m, d, h, min);
    if 100 <= y {
      CreateLocalDateIsoAgreement(DateInput(y, m, d), TimeInput(h, min));
      CreateLocalDateIsoDenotes(y, m, d, h, min);
    } else if ValidDate(CivilDate(1900 + y, m, d)) {
      CreateLocalDateIsoAsWrittenShiftsYear(y, m, d, h, min);
    } else {
      OnlyLeapDayOfYearZeroLacksShift(y, m, d);
      var t := MakeTime(CivilDate(1900, 3, 1), h, min, 0, 0);
      LeapDayOfYearZero(h, min);
      CreateLocalDateIsoAsWrittenOf(DateInput(y, m, d), TimeInput(h, min), LocalFields(y, m, d, h, min), t);
      IsoRoundTrip(t);
    }
  }

  /** The constructor rolls 29 February of the year 0, read as 1900, over to 1 March 1900. */
  lemma LeapDayOfYearZero(h: nat, min: nat)
    requires h < 24 && min < 60
    ensures var t := MakeTime(CivilDate(1900, 3, 1), h, min, 0, 0);
            && FieldsInstant(ConstructorYear(0), LocalFields(0, 2, 29, h, min)) == Some(t)
            && -MaxTime <= t <= MaxTime
  {
    var c := CivilDate(1900, 3, 1);
    var t := MakeTime(c, h, min, 0, 0);
    assert DayNumber(c) == DayNumber(CivilDate(1900, 2, 1)) + 28;
    assert LocalDateValue(1900, 1, 29, h, min) == t;
    FourDigitYearsInRange(c, h, min);
  }

  /** The input that shows it: 15 June of the year 50 at 10:30 is stored in 1950. */
  lemma CreateLocalDateIsoYear50(dateStr: string, timeStr: string)
    requires dateStr == "0050-06-15" && timeStr == "10:30"
    ensures var r := CreateLocalDateIsoAsWritten(dateStr, timeStr);
            && r.Some? && ParseIso(r.value).Some? && FullYear(ParseIso(r.value).value) == 1950
  {
    InputsOfYear50();
    JuneFifteenth(50);
    CreateLocalDateIsoAsWrittenShiftsYear(50, 6, 15, 10, 30);
  }

  lemma InputsOfYear50()
    ensures DateInput(50, 6, 15) == "0050-06-15" && TimeInput(10, 30) == "10:30"
  {
    TwoDigits(50);
    PaddedTwoDigits(50);
    OneDigit(6);
    TwoDigits(15);
    TwoDigits(10);
    TwoDigits(30);
  }

  lemma OneDigit(n: nat)
    requires n < 10
    ensures Pad2(n) == ['0', DigitChar(n)]
  {
    assert Zeros(1) == "0";
  }

  lemma TwoDigits(n: nat)
    requires 10 <= n < 100
    ensures NatToDecimal(n) == [DigitChar(n / 10), DigitChar(n % 10)]
    ensures Pad2(n) == NatToDecimal(n)
  {
  }

  lemma PaddedTwoDigits(n: nat)
    requires 10 <= n < 100
    ensures PaddedDecimal(n, 4) == "00" + NatToDecimal(n)
  {
    TwoDigits(n);
    assert Zeros(2) == "00";
  }

  lemma JuneFifteenth(y: int)
    ensures ValidDate(CivilDate(y, 6, 15)) && ValidDate(CivilDate(1900 + y, 6, 15))
  {
  }

  /**
   * Editing a todo without touching the fields keeps its schedule, down to
   * the minute: the same local date, hour and minute, with the seconds and
   * milliseconds dropped (`MinuteOfInstant` says how far that moves it).
   */
  lemma EditRoundTrip(t: Instant)
    requires 1000 <= FullYear(t) <= 9999
    ensures var r := CreateLocalDateIsoAsWritten(GetDateFromIso(Some(t)), GetTimeFromIso(Some(t)));
            && r.Some? && ParseIso(r.value) == Some(MakeTime(CivilDateOf(t), HoursOf(t), MinutesOf(t), 0, 0))
  {
    var c := CivilDateOf(t);
    EditDateInput(t);
    EditTimeInput(t);
    InputsDenote(GetDateFromIso(Some(t)), GetTimeFromIso(Some(t)), c, HoursOf(t), MinutesOf(t));
  }

  /** Inputs holding a well-formed date and time denote that date (its year as the constructor reads it) and time. */
  lemma InputsDenote(dateStr: string, timeStr: string, c: CivilDate, h: nat, min: nat)
    requires WellFormed(c.year, c.month, c.day, h, min)
    requires dateStr == DateInput(c.year, c.month, c.day) && timeStr == TimeInput(h, min)
    ensures var r := CreateLocalDateIsoAsWritten(dateStr, timeStr);
            r.Some? && ParseIso(r.value) == Some(MakeTime(TypedDay(c.year, c.month, c.day), h, min, 0, 0))
  {
    CreateLocalDateIsoAsWrittenDenotes(c.year, c.month, c.day, h, min);
  }

  /** The time value with the seconds and milliseconds of `t` dropped: its local date, hour and minute. */
  lemma MinuteOfInstant(t: Instant)
    ensures MakeTime(CivilDateOf(t), HoursOf(t), MinutesOf(t), 0, 0) == t - SecondsOf(t) * MsPerSecond - MillisOf(t)
  {
    Decompose(t);
  }

  /** The date edit field of a todo with a four-digit year holds exactly what a date input would. */
  lemma EditDateInput(t: Instant)
    requires 1000 <= FullYear(t) <= 9999
    ensures var c := CivilDateOf(t); GetDateFromIso(Some(t)) == DateInput(c.year, c.month, c.day)
  {
    var c := CivilDateOf(t);
    FourDigitPadded(c.year);
    assert DateText(t) == DayText(c);
  }

  /** The time edit field of any scheduled todo holds exactly what a time input would. */
  lemma EditTimeInput(t: Instant)
    ensures GetTimeFromIso(Some(t)) == TimeInput(HoursOf(t), MinutesOf(t))
  {
  }

  // ---------------------------------------------------------------------------
  // Schedule defaulting, shared by submit and edit

  /** The RangeError message `toISOString` throws for an invalid date. */
  const InvalidTimeValue: string := "Invalid time value"

  datatype Schedule = NoSchedule | ScheduledAt(iso: string) | Throws(message: string)

  /**
   * No date: no schedule; a date without a time: "00:00"; then
   * `createLocalDateISO` as written, whose RangeError on an invalid date
   * escapes the handler.
   */
  function ScheduleFrom(date: string, time: string): (r: Schedule)
    ensures date == "" <==> r.NoSchedule?
    ensures r.Throws? ==> r.message == InvalidTimeValue
  {
    if date == "" then NoSchedule
    else
      match CreateLocalDateIsoAsWritten(date, if time != "" then time else "00:00")
      case None => Throws(InvalidTimeValue)
      case Some(iso) => ScheduledAt(iso)
  }

  function ScheduleText(s: Schedule): Option<string> {
    if s.ScheduledAt? then Some(s.iso) else None
  }

  /** An empty time is the same as "00:00". */
  lemma ScheduleDefaultsToMidnight(date: string)
    ensures ScheduleFrom(date, "") == ScheduleFrom(date, "00:00")
  {
  }

  /**
   * A date entered without a time is an all-day todo on the day the
   * constructor reads: the typed date from the year 100 on, the shifted one
   * for a two-digit year.
   */
  lemma DateOnlyIsAllDay(y: nat, m: nat, d: nat)
    requires WellFormed(y, m, d, 0, 0)
    ensures var s := ScheduleFrom(DateInput(y, m, d), "");
            && s.ScheduledAt?
            && ParseIso(s.iso).Some?
            && AtMidnight(ParseIso(s.iso).value)
            && CivilDateOf(ParseIso(s.iso).value) == TypedDay(y, m, d)
  {
    assert TimeInput(0, 0) == "00:00";
    CreateLocalDateIsoAsWrittenDenotes(y, m, d, 0, 0);
    MakeTimeFields(TypedDay(y, m, d), 0, 0, 0, 0);
  }

  // ---------------------------------------------------------------------------
  // Form state

  /** A row can be dragged when its todo is unscheduled and is not being edited. */
  predicate Draggable(todo: Todo, editingId: Option<string>) {
    todo.scheduledAt.None? && editingId != Some(todo.id)
  }

  class TodoForm {
    var newTodoText: string
    var newTodoDate: string
    var newTodoTime: string
    var isSubmitting: bool
    var error: Option<string>
    var editingId: Option<string>
    var editText: string
    var editDate: string
    var editTime: string

    constructor ()
      ensures newTodoText == "" && newTodoDate == "" && newTodoTime == ""
      ensures !isSubmitting && error == None
      ensures editingId == None && editText == "" && editDate == "" && editTime == ""
    {
      newTodoText, newTodoDate, newTodoTime := "", "", "";
      isSubmitting, error := false, None;
      editingId, editText, editDate, editTime := None, "", "", "";
    }

    /**
     * `handleSubmit`. Blank text is refused with a message and nothing is
     * sent. An invalid date makes `createLocalDateISO` throw outside the
     * `try`, so the handler stops with `isSubmitting` still set. Otherwise
     * the todo is added; on success the inputs are cleared, on failure the
     * thrown message is shown; either way submitting ends.
     */
    method HandleSubmit(provider: TodoProvider, reply: Reply<Todo>) returns (request: Option<Request>, escaped: Option<string>)
      modifies this, provider
      ensures editingId == old(editingId) && editText == old(editText)
      ensures editDate == old(editDate) && editTime == old(editTime)
      ensures provider.isLoading == old(provider.isLoading) && provider.error == old(provider.error)
      ensures provider.draggedTodoId == old(provider.draggedTodoId)
      ensures Trim(old(newTodoText)) == "" ==>
                && request.None? && escaped.None? && error == Some("Please enter a todo description")
                && isSubmitting == old(isSubmitting) && provider.todos == old(provider.todos)
                && newTodoText == old(newTodoText) && newTodoDate == old(newTodoDate) && newTodoTime == old(newTodoTime)
      ensures var schedule := ScheduleFrom(old(newTodoDate), old(newTodoTime));
              (Trim(old(newTodoText)) != "" && schedule.Throws?) ==>
                && request.None? && escaped == Some(schedule.message) && error == None && isSubmitting
                && provider.todos == old(provider.todos)
                && newTodoText == old(newTodoText) && newTodoDate == old(newTodoDate) && newTodoTime == old(newTodoTime)
      ensures var schedule := ScheduleFrom(old(newTodoDate), old(newTodoTime));
              (Trim(old(newTodoText)) != "" && !schedule.Throws?) ==>
                && request == Some(Request(Post, "/api/todos", Some(MakePayload(old(newTodoText), ScheduleText(schedule)))))
                && escaped.None? && !isSubmitting
                && (reply.Ok? ==> && provider.todos == SortTodos(old(provider.todos) + [reply.value])
                                  && error == None && newTodoText == "" && newTodoDate == "" && newTodoTime == "")
                && (!reply.Ok? ==> && provider.todos == old(provider.todos)
                                   && error == Some(AddFailureMessage(reply))
                                   && newTodoText == old(newTodoText) && newTodoDate == old(newTodoDate)
                                   && newTodoTime == old(newTodoTime))
    {
      request, escaped := None, None;
      var text, date, time := newTodoText, newTodoDate, newTodoTime;
      error := None;
      if Trim(text) == "" {
        error := Some("Please enter a todo description");
        return;
      }
      isSubmitting := true;
      var schedule := ScheduleFrom(date, time);
      if schedule.Throws? {
        escaped := Some(schedule.message);
        return;
      }
      var sent := AddAndReset(provider, ScheduleText(schedule), reply);
      request := Some(sent);
    }

    /** The `try` block of `handleSubmit`: add the todo, then clear the inputs or show the message. */
    method AddAndReset(provider: TodoProvider, scheduledAt: Option<string>, reply: Reply<Todo>) returns (request: Request)
      modifies this, provider
      ensures request == Request(Post, "/api/todos", Some(MakePayload(old(newTodoText), scheduledAt)))
      ensures !isSubmitting
      ensures editingId == old(editingId) && editText == old(editText)
      ensures editDate == old(editDate) && editTime == old(editTime)
      ensures provider.isLoading == old(provider.isLoading) && provider.error == old(provider.error)
      ensures provider.draggedTodoId == old(provider.draggedTodoId)
      ensures reply.Ok? ==> && provider.todos == SortTodos(old(provider.todos) + [reply.value])
                            && error == None && newTodoText == "" && newTodoDate == "" && newTodoTime == ""
      ensures !reply.Ok? ==> && provider.todos == old(provider.todos)
                             && error == Some(AddFailureMessage(reply))
                             && newTodoText == old(newTodoText) && newTodoDate == old(newTodoDate)
                             && newTodoTime == old(newTodoTime)
    {
      var thrown;
      request, thrown := provider.AddTodo(newTodoText, scheduledAt, reply);
      if thrown.None? {
        newTodoText, newTodoDate, newTodoTime := "", "", "";
        error := None;
      } else {
        error := thrown;
      }
      isSubmitting := false;
    }

    /** `startEditing`: load the todo's text, date and time into the edit fields. */
    method StartEditing(todo: Todo)
      modifies this
      ensures editingId == Some(todo.id) && editText == todo.text
      ensures editDate == GetDateFromIso(todo.scheduledAt) && editTime == GetTimeFromIso(todo.scheduledAt)
      ensures !Draggable(todo, editingId)
      ensures newTodoText == old(newTodoText) && newTodoDate == old(newTodoDate) && newTodoTime == old(newTodoTime)
      ensures isSubmitting == old(isSubmitting) && error == old(error)
    {
      editingId := Some(todo.id);
      editText := todo.text;
      editDate := GetDateFromIso(todo.scheduledAt);
      editTime := GetTimeFromIso(todo.scheduledAt);
    }

    /** `cancelEditing`: every edit field back to empty; then every unscheduled todo can be dragged. */
    method CancelEditing()
      modifies this
      ensures editingId == None && editText == "" && editDate == "" && editTime == ""
      ensures forall t: Todo :: Draggable(t, editingId) <==> t.scheduledAt.None?
      ensures newTodoText == old(newTodoText) && newTodoDate == old(newTodoDate) && newTodoTime == old(newTodoTime)
      ensures isSubmitting == old(isSubmitting) && error == old(error)
    {
      editingId := None;
      editText := "";
      editDate := "";
      editTime := "";
    }

    /**
     * `handleUpdate`: blank edit text sends nothing; an invalid date throws
     * before the request; otherwise the update is sent, and only a success
     * ends editing (a failure is only logged).
     */
    method HandleUpdate(id: string, provider: TodoProvider, reply: Reply<Todo>) returns (request: Option<Request>, escaped: Option<string>)
      modifies this, provider
      ensures newTodoText == old(newTodoText) && newTodoDate == old(newTodoDate) && newTodoTime == old(newTodoTime)
      ensures isSubmitting == old(isSubmitting) && error == old(error)
      ensures provider.isLoading == old(provider.isLoading) && provider.error == old(provider.error)
      ensures provider.draggedTodoId == old(provider.draggedTodoId)
      ensures var schedule := ScheduleFrom(old(editDate), old(editTime));
              (IsBlank(old(editText)) || schedule.Throws?) ==>
                && request.None? && provider.todos == old(provider.todos)
                && (escaped.Some? <==> !IsBlank(old(editText)))
                && (escaped.Some? ==> escaped == Some(schedule.message))
                && editingId == old(editingId) && editText == old(editText)
                && editDate == old(editDate) && editTime == old(editTime)
      ensures var schedule := ScheduleFrom(old(editDate), old(editTime));
              (!IsBlank(old(editText)) && !schedule.Throws?) ==>
                && request == Some(Request(Put, ItemUrl(id), Some(MakePayload(old(editText), ScheduleText(schedule)))))
                && escaped.None?
                && (reply.Ok? ==> && provider.todos == SortTodos(ReplaceById(old(provider.todos), id, reply.value))
                                  && editingId == None && editText == "" && editDate == "" && editTime == "")
                && (!reply.Ok? ==> && provider.todos == old(provider.todos)
                                   && editingId == old(editingId) && editText == old(editText)
                                   && editDate == old(editDate) && editTime == old(editTime))
    {
      request, escaped := None, None;
      TrimEmptyIffBlank(editText);
      if Trim(editText) == "" {
        return;
      }
      var schedule := ScheduleFrom(editDate, editTime);
      if schedule.Throws? {
        escaped := Some(schedule.message);
        return;
      }
      var sent, thrown := provider.UpdateTodo(id, editText, ScheduleText(schedule), reply);
      request := Some(sent);
      if thrown.None? {
        CancelEditing();
      }
    }

    /** `handleDelete`: the delete is sent; a failure is only logged. */
    method HandleDelete(id: string, provider: TodoProvider, reply: Reply<()>) returns (request: Request)
      modifies provider
      ensures request == Request(Delete, ItemUrl(id), None)
      ensures reply.Ok? ==> provider.todos == RemoveById(old(provider.todos), id)
      ensures !reply.Ok? ==> provider.todos == old(provider.todos)
      ensures provider.isLoading == old(provider.isLoading) && provider.error == old(provider.error)
      ensures provider.draggedTodoId == old(provider.draggedTodoId)
    {
      var thrown;
      request, thrown := provider.DeleteTodo(id, reply);
    }

    /** `onDragStart`: only an unscheduled todo becomes the dragged one. */
    method HandleDragStart(todo: Todo, provider: TodoProvider)
      modifies provider
      ensures provider.draggedTodoId == if todo.scheduledAt.None? then Some(todo.id) else old(provider.draggedTodoId)
      ensures provider.todos == old(provider.todos)
      ensures provider.isLoading == old(provider.isLoading) && provider.error == old(provider.error)
    {
      if todo.scheduledAt.None? {
        provider.SetDraggedTodoId(Some(todo.id));
      }
    }

    /** `onDragEnd`: the drag is over. */
    method HandleDragEnd(provider: TodoProvider)
      modifies provider
      ensures provider.draggedTodoId == None
      ensures provider.todos == old(provider.todos)
      ensures provider.isLoading == old(provider.isLoading) && provider.error == old(provider.error)
    {
      provider.SetDraggedTodoId(None);
    }
  }
}
