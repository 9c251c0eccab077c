/**
 * JavaScript `Date` values as the todo application reads them: a time value in
 * milliseconds since 1970-01-01T00:00, and the local calendar fields derived
 * from it (`getFullYear`, `getMonth`, `getDate`, `getDay`, `getHours`,
 * `getMinutes`, ...). The local time zone is taken to be UTC with no daylight
 * saving, so local fields and UTC fields coincide.
 */
module LocalTime {

  /** A JavaScript time value (`getTime()`). */
  type Instant = int

  const MsPerSecond: int := 1000
  const MsPerMinute: int := 60_000
  const MsPerHour: int := 3_600_000
  const MsPerDay: int := 86_400_000

  /** The largest magnitude of a valid time value (ECMAScript TimeClip). */
  const MaxTime: int := 8_640_000_000_000_000

  /** A day of the proleptic Gregorian calendar; `month` is 1-based (JavaScript's `getMonth() + 1`). */
  datatype CivilDate = CivilDate(year: int, month: int, day: int)

  predicate IsLeapYear(y: int) {
    y % 4 == 0 && (y % 100 != 0 || y % 400 == 0)
  }

  function DaysInYear(y: int): int {
    if IsLeapYear(y) then 366 else 365
  }

  function DaysInMonth(y: int, m: int): (n: int)
    requires 1 <= m <= 12
    ensures 28 <= n <= 31
  {
    if m == 2 then (if IsLeapYear(y) then 29 else 28)
    else if m == 4 || m == 6 || m == 9 || m == 11 then 30
    else 31
  }

  predicate ValidDate(d: CivilDate) {
    1 <= d.month <= 12 && 1 <= d.day <= DaysInMonth(d.year, d.month)
  }

  /** The number of leap years among 1..n; floor division extends the count to every integer. */
  function LeapsThrough(n: int): int {
    n / 4 - n / 100 + n / 400
  }

  function DaysBeforeYear(y: int): int {
    365 * (y - 1970) + LeapsThrough(y - 1) - LeapsThrough(1969)
  }

  function DaysBeforeMonth(y: int, m: int): int
    requires 1 <= m <= 12
  {
    [0, 31, 59, 90, 120, 151, 181, 212, 243, 273, 304, 334][m - 1]
    + (if m > 2 && IsLeapYear(y) then 1 else 0)
  }

  /** Days from 1970-01-01 to the given day (negative before it). */
  function DayNumber(d: CivilDate): int
    requires 1 <= d.month <= 12
  {
    DaysBeforeYear(d.year) + DaysBeforeMonth(d.year, d.month) + d.day - 1
  }

  const Epoch: CivilDate := CivilDate(1970, 1, 1)

  /** Floor division by `k` grows by one exactly at the multiples of `k`. */
  lemma DivStep(y: int, k: int)
    requires k == 4 || k == 100 || k == 400
    ensures y / k - (y - 1) / k == if y % k == 0 then 1 else 0
  {
    if k == 4 {
      assert y / 4 - (y - 1) / 4 == if y % 4 == 0 then 1 else 0;
    } else if k == 100 {
      assert y / 100 - (y - 1) / 100 == if y % 100 == 0 then 1 else 0;
    } else {
      assert y / 400 - (y - 1) / 400 == if y % 400 == 0 then 1 else 0;
    }
  }

  lemma LeapStep(y: int)
    ensures LeapsThrough(y) - LeapsThrough(y - 1) == if IsLeapYear(y) then 1 else 0
  {
    DivStep(y, 4);
    DivStep(y, 100);
    DivStep(y, 400);
    if y % 400 == 0 {
      MultipleOf400(y);
    }
    if y % 100 == 0 {
      MultipleOf100(y);
    }
  }

  lemma MultipleOf400(y: int)
    requires y % 400 == 0
    ensures y % 100 == 0
  {
    var q := y / 400;
    assert y == 100 * (4 * q);
  }

  lemma MultipleOf100(y: int)
    requires y % 100 == 0
    ensures y % 4 == 0
  {
    var q := y / 100;
    assert y == 4 * (25 * q);
  }

  lemma YearStep(y: int)
    ensures DaysBeforeYear(y + 1) == DaysBeforeYear(y) + DaysInYear(y)
  {
    LeapStep(y);
  }

  lemma MonthStep(y: int, m: int)
    requires 1 <= m < 12
    ensures DaysBeforeMonth(y, m + 1) == DaysBeforeMonth(y, m) + DaysInMonth(y, m)
  {
  }

  /** A day lies within its year's span of day numbers. */
  lemma DayNumberWithinYear(d: CivilDate)
    requires ValidDate(d)
    ensures DaysBeforeYear(d.year) <= DayNumber(d) < DaysBeforeYear(d.year + 1)
  {
    YearStep(d.year);
  }

  lemma {:induction false} DaysBeforeYearMonotone(a: int, b: int)
    requires a <= b
    ensures DaysBeforeYear(a) <= DaysBeforeYear(b)
    decreases b - a
  {
    if a < b {
      YearStep(a);
      DaysBeforeYearMonotone(a + 1, b);
    }
  }

  lemma {:induction false} DaysBeforeMonthMonotone(y: int, a: int, b: int)
    requires 1 <= a < b <= 12
    ensures DaysBeforeMonth(y, a) + DaysInMonth(y, a) <= DaysBeforeMonth(y, b)
    decreases b - a
  {
    MonthStep(y, a);
    if a + 1 < b {
      DaysBeforeMonthMonotone(y, a + 1, b);
    }
  }

  /** Different valid days have different day numbers. */
  lemma DayNumberInjective(a: CivilDate, b: CivilDate)
    requires ValidDate(a) && ValidDate(b) && DayNumber(a) == DayNumber(b)
    ensures a == b
  {
    SameDayNumberSameYear(a, b);
    SameDayNumberSameMonth(a, b);
  }

  lemma SameDayNumberSameYear(a: CivilDate, b: CivilDate)
    requires ValidDate(a) && ValidDate(b) && DayNumber(a) == DayNumber(b)
    ensures a.year == b.year
  {
    if a.year < b.year {
      YearsApart(a, b);
    } else if b.year < a.year {
      YearsApart(b, a);
    }
  }

  /** A day of an earlier year has a smaller day number. */
  lemma YearsApart(a: CivilDate, b: CivilDate)
    requires ValidDate(a) && ValidDate(b) && a.year < b.year
    ensures DayNumber(a) < DayNumber(b)
  {
    DayNumberWithinYear(a);
    DayNumberWithinYear(b);
    DaysBeforeYearMonotone(a.year + 1, b.year);
  }

  lemma SameDayNumberSameMonth(a: CivilDate, b: CivilDate)
    requires ValidDate(a) && ValidDate(b) && a.year == b.year && DayNumber(a) == DayNumber(b)
    ensures a.month == b.month
  {
    if a.month < b.month {
      DaysBeforeMonthMonotone(a.year, a.month, b.month);
    } else if b.month < a.month {
      DaysBeforeMonthMonotone(a.year, b.month, a.month);
    }
  }

  /** The following day, as `setDate(getDate() + 1)` gives it. */
  function NextDay(d: CivilDate): (r: CivilDate)
    requires ValidDate(d)
    ensures ValidDate(r) && DayNumber(r) == DayNumber(d) + 1
  {
    if d.day < DaysInMonth(d.year, d.month) then CivilDate(d.year, d.month, d.day + 1)
    else if d.month < 12 then
      MonthStep(d.year, d.month);
      CivilDate(d.year, d.month + 1, 1)
    else
      YearStep(d.year);
      CivilDate(d.year + 1, 1, 1)
  }

  /** The preceding day, as `setDate(getDate() - 1)` gives it. */
  function PrevDay(d: CivilDate): (r: CivilDate)
    requires ValidDate(d)
    ensures ValidDate(r) && DayNumber(r) == DayNumber(d) - 1
  {
    if d.day > 1 then CivilDate(d.year, d.month, d.day - 1)
    else if d.month > 1 then
      MonthStep(d.year, d.month - 1);
      CivilDate(d.year, d.month - 1, DaysInMonth(d.year, d.month - 1))
    else
      YearStep(d.year - 1);
      CivilDate(d.year - 1, 12, 31)
  }

  /** The calendar day with day number `n`, reached by stepping one day at a time from 1970-01-01. */
  function DateOfDay(n: int): (d: CivilDate)
    ensures ValidDate(d) && DayNumber(d) == n
    decreases if n >= 0 then n else -n
  {
    if n == 0 then Epoch
    else if n > 0 then NextDay(DateOfDay(n - 1))
    else PrevDay(DateOfDay(n + 1))
  }

  /** Every valid day is the day of its own day number. */
  lemma DateOfDayNumber(d: CivilDate)
    requires ValidDate(d)
    ensures DateOfDay(DayNumber(d)) == d
  {
    DayNumberInjective(DateOfDay(DayNumber(d)), d);
  }

  function DayOf(t: Instant): int {
    t / MsPerDay
  }

  function TimeInDay(t: Instant): (ms: int)
    ensures 0 <= ms < MsPerDay
  {
    t % MsPerDay
  }

  /** `getHours()` */
  function HoursOf(t: Instant): (h: int)
    ensures 0 <= h < 24
  {
    TimeInDay(t) / MsPerHour
  }

  /** `getMinutes()` */
  function MinutesOf(t: Instant): (m: int)
    ensures 0 <= m < 60
  {
    TimeInDay(t) / MsPerMinute % 60
  }

  /** `getSeconds()` */
  function SecondsOf(t: Instant): (s: int)
    ensures 0 <= s < 60
  {
    TimeInDay(t) / MsPerSecond % 60
  }

  /** `getMilliseconds()` */
  function MillisOf(t: Instant): (ms: int)
    ensures 0 <= ms < 1000
  {
    TimeInDay(t) % MsPerSecond
  }

  function CivilDateOf(t: Instant): (d: CivilDate)
    ensures ValidDate(d)
  {
    DateOfDay(DayOf(t))
  }

  /** `getFullYear()` */
  function FullYear(t: Instant): int {
    CivilDateOf(t).year
  }

  /** `getMonth() + 1` */
  function MonthOf(t: Instant): (m: int)
    ensures 1 <= m <= 12
  {
    CivilDateOf(t).month
  }

  /** `getDate()` */
  function DateOf(t: Instant): (d: int)
    ensures 1 <= d <= 31
  {
    CivilDateOf(t).day
  }

  /** `getDay()`: 0 is Sunday; 1970-01-01 was a Thursday. */
  function WeekDay(t: Instant): (w: int)
    ensures 0 <= w < 7
  {
    (DayOf(t) + 4) % 7
  }

  /** The time value of a local date and clock time, as `new Date(y, m - 1, d, h, min, s, ms)` builds it for in-range fields. */
  function MakeTime(d: CivilDate, h: int, min: int, s: int, ms: int): Instant
    requires 1 <= d.month <= 12
  {
    DayNumber(d) * MsPerDay + h * MsPerHour + min * MsPerMinute + s * MsPerSecond + ms
  }

  predicate ValidClock(h: int, min: int, s: int, ms: int) {
    0 <= h < 24 && 0 <= min < 60 && 0 <= s < 60 && 0 <= ms < 1000
  }

  lemma DivModDay(q: int, r: int)
    requires 0 <= r < MsPerDay
    ensures (q * MsPerDay + r) / MsPerDay == q && (q * MsPerDay + r) % MsPerDay == r
  {
  }

  lemma DivModHour(q: int, r: int)
    requires 0 <= r < MsPerHour
    ensures (q * MsPerHour + r) / MsPerHour == q
  {
  }

  lemma DivModMinute(q: int, r: int)
    requires 0 <= r < MsPerMinute
    ensures (q * MsPerMinute + r) / MsPerMinute == q
  {
  }

  lemma DivModSecond(q: int, r: int)
    requires 0 <= r < MsPerSecond
    ensures (q * MsPerSecond + r) / MsPerSecond == q && (q * MsPerSecond + r) % MsPerSecond == r
  {
  }

  lemma ModSixty(q: int, r: int)
    requires 0 <= r < 60
    ensures (q * 60 + r) % 60 == r
  {
  }

  /** The clock fields of a time within one day. */
  lemma ClockFields(h: int, min: int, s: int, ms: int)
    requires ValidClock(h, min, s, ms)
    ensures var r := h * MsPerHour + min * MsPerMinute + s * MsPerSecond + ms;
      && 0 <= r < MsPerDay
      && r / MsPerHour == h
      && r / MsPerMinute % 60 == min
      && r / MsPerSecond % 60 == s
      && r % MsPerSecond == ms
  {
    var r := h * MsPerHour + min * MsPerMinute + s * MsPerSecond + ms;
    DivModHour(h, min * MsPerMinute + s * MsPerSecond + ms);
    assert r == (h * 60 + min) * MsPerMinute + (s * MsPerSecond + ms);
    DivModMinute(h * 60 + min, s * MsPerSecond + ms);
    ModSixty(h, min);
    assert r == (h * 3600 + min * 60 + s) * MsPerSecond + ms;
    DivModSecond(h * 3600 + min * 60 + s, ms);
    ModSixty(h * 60 + min, s);
  }

  /** Reading the fields of a time value built from fields gives them back. */
  lemma MakeTimeFields(d: CivilDate, h: int, min: int, s: int, ms: int)
    requires ValidDate(d) && ValidClock(h, min, s, ms)
    ensures DayOf(MakeTime(d, h, min, s, ms)) == DayNumber(d)
    ensures CivilDateOf(MakeTime(d, h, min, s, ms)) == d
    ensures HoursOf(MakeTime(d, h, min, s, ms)) == h
    ensures MinutesOf(MakeTime(d, h, min, s, ms)) == min
    ensures SecondsOf(MakeTime(d, h, min, s, ms)) == s
    ensures MillisOf(MakeTime(d, h, min, s, ms)) == ms
  {
    var r := h * MsPerHour + min * MsPerMinute + s * MsPerSecond + ms;
    ClockFields(h, min, s, ms);
    DivModDay(DayNumber(d), r);
    assert TimeInDay(MakeTime(d, h, min, s, ms)) == r;
    DateOfDayNumber(d);
  }

  /** A time value is rebuilt from its own fields. */
  lemma Decompose(t: Instant)
    ensures t == MakeTime(CivilDateOf(t), HoursOf(t), MinutesOf(t), SecondsOf(t), MillisOf(t))
  {
    var r := TimeInDay(t);
    assert t == DayOf(t) * MsPerDay + r;
    ClockDecompose(r);
  }

  /** A time within one day is the sum of its hours, minutes, seconds and milliseconds. */
  lemma ClockDecompose(r: int)
    requires 0 <= r < MsPerDay
    ensures r == r / MsPerHour * MsPerHour + r / MsPerMinute % 60 * MsPerMinute
                 + r / MsPerSecond % 60 * MsPerSecond + r % MsPerSecond
  {
    var h := r / MsPerHour;
    var r1 := r % MsPerHour;
    assert r == h * MsPerHour + r1;
    var m := r1 / MsPerMinute;
    var r2 := r1 % MsPerMinute;
    assert r1 == m * MsPerMinute + r2;
    var sec := r2 / MsPerSecond;
    assert r2 == sec * MsPerSecond + r2 % MsPerSecond;
    ClockFields(h, m, sec, r2 % MsPerSecond);
  }

  /** Local midnight of the day `t` falls on. */
  function StartOfDay(t: Instant): (m: Instant)
    ensures DayOf(m) == DayOf(t) && TimeInDay(m) == 0
    ensures m <= t < m + MsPerDay
  {
    DayOf(t) * MsPerDay
  }

  /** `setDate(getDate() + k)`: the same clock time `k` days later (no daylight saving here). */
  function AddDays(t: Instant, k: int): (r: Instant)
    ensures DayOf(r) == DayOf(t) + k && TimeInDay(r) == TimeInDay(t)
  {
    t + k * MsPerDay
  }

  /** A time value is determined by its day and its time within the day. */
  lemma SameDayAndTime(a: Instant, b: Instant)
    requires DayOf(a) == DayOf(b) && TimeInDay(a) == TimeInDay(b)
    ensures a == b
  {
  }

  /**
   * `setDate(n)`: day `n` of the same month and year with the same clock
   * time; `n` outside the month rolls over into a neighbouring month.
   */
  function SetDate(t: Instant, n: int): (r: Instant)
    ensures DayOf(r) == DayOf(t) + (n - DateOf(t)) && TimeInDay(r) == TimeInDay(t)
  {
    var c := CivilDateOf(t);
    var firstOfMonth := DayNumber(CivilDate(c.year, c.month, 1));
    DivModDay(firstOfMonth + n - 1, TimeInDay(t));
    (firstOfMonth + n - 1) * MsPerDay + TimeInDay(t)
  }

  /** `d.setDate(d.getDate() + k)` moves `d` by exactly `k` days. */
  lemma SetDateAddsDays(t: Instant, k: int)
    ensures SetDate(t, DateOf(t) + k) == AddDays(t, k)
  {
    SameDayAndTime(SetDate(t, DateOf(t) + k), AddDays(t, k));
  }

  lemma WeekDayAddDays(t: Instant, k: int)
    ensures WeekDay(AddDays(t, k)) == (WeekDay(t) + k) % 7
  {
  }
}
