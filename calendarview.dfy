/**
 * The calendar: the Sunday-started week strip, per-day todo lists and
 * badge counts, time labels, and scheduling a backlog todo by dropping it
 * on a day.
 */
module CalendarView {
  import opened Wrappers
  import opened Strings
  import opened LocalTime
  import opened IsoDate
  import opened Todos
  import opened Sorting
  import opened TodoContext
  import opened Render

  // ---------------------------------------------------------------------------
  // Days and weeks

  /** `isSameDay`: same year, month and day of the month. */
  predicate IsSameDay(a: Instant, b: Instant) {
    FullYear(a) == FullYear(b) && MonthOf(a) == MonthOf(b) && DateOf(a) == DateOf(b)
  }

  /** Two instants are on the same day exactly when they have the same day number. */
  lemma IsSameDayIffSameDay(a: Instant, b: Instant)
    ensures IsSameDay(a, b) <==> DayOf(a) == DayOf(b)
  {
    if IsSameDay(a, b) {
      assert CivilDateOf(a) == CivilDateOf(b);
    }
  }

  /** Reflexive and symmetric, and blind to the clock time: two instants share a day exactly when they share its start. */
  lemma IsSameDayProperties(a: Instant, b: Instant)
    ensures IsSameDay(a, a)
    ensures IsSameDay(a, b) == IsSameDay(b, a)
    ensures IsSameDay(a, b) <==> StartOfDay(a) == StartOfDay(b)
  {
    IsSameDayIffSameDay(a, b);
  }

  /** The seven days of the week `date` lies in, Sunday first, each at the clock time of `date`. */
  function WeekOf(date: Instant): (days: seq<Instant>)
    ensures |days| == 7
  {
    seq(7, i => AddDays(date, i - WeekDay(date)))
  }

  /** A week is seven consecutive days starting on a Sunday, and it holds the date it was built from. */
  lemma WeekOfProperties(date: Instant)
    ensures WeekDay(WeekOf(date)[0]) == 0
    ensures forall i :: 0 <= i < 6 ==> WeekOf(date)[i + 1] == AddDays(WeekOf(date)[i], 1)
    ensures forall i :: 0 <= i < 7 ==> WeekDay(WeekOf(date)[i]) == i
    ensures WeekOf(date)[WeekDay(date)] == date
  {
    var w := WeekDay(date);
    forall i | 0 <= i < 7 ensures WeekDay(WeekOf(date)[i]) == i {
      WeekDayAddDays(date, i - w);
    }
    forall i | 0 <= i < 6 ensures WeekOf(date)[i + 1] == AddDays(WeekOf(date)[i], 1) {
      assert WeekOf(date)[i + 1] == AddDays(date, i + 1 - w);
      assert WeekOf(date)[i] == AddDays(date, i - w);
    }
    assert WeekOf(date)[w] == AddDays(date, 0);
  }

  /** `getWeekDays`: step back to Sunday with `setDate`, then push seven days. */
  method GetWeekDays(date: Instant) returns (days: seq<Instant>)
    ensures days == WeekOf(date)
  {
    var day := WeekDay(date);
    var diff := DateOf(date) - day;
    var weekStart := SetDate(date, diff);
    SetDateAddsDays(date, -day);
    days := [];
    var i := 0;
    while i < 7
      invariant 0 <= i <= 7 && |days| == i
      invariant forall k :: 0 <= k < i ==> days[k] == AddDays(date, k - day)
    {
      SetDateAddsDays(weekStart, i);
      var d := SetDate(weekStart, DateOf(weekStart) + i);
      days := days + [d];
      i := i + 1;
    }
    WeekOfIs(date, days);
  }

  lemma WeekOfIs(date: Instant, days: seq<Instant>)
    requires |days| == 7 && forall k :: 0 <= k < 7 ==> days[k] == AddDays(date, k - WeekDay(date))
    ensures days == WeekOf(date)
  {
  }

  datatype Direction = Prev | Next

  /** Moving the anchor a week on lays out the next week. */
  lemma WeekOfNextWeek(date: Instant)
    ensures forall i :: 0 <= i < 7 ==> WeekOf(AddDays(date, 7))[i] == AddDays(WeekOf(date)[i], 7)
  {
    var w := WeekDay(date);
    WeekDayAddDays(date, 7);
    assert (w + 7) % 7 == w;
    forall i | 0 <= i < 7 ensures WeekOf(AddDays(date, 7))[i] == AddDays(WeekOf(date)[i], 7) {
      assert WeekOf(AddDays(date, 7))[i] == AddDays(AddDays(date, 7), i - w);
      assert WeekOf(date)[i] == AddDays(date, i - w);
    }
  }

  /** A step forward and a step back return the anchor to where it was. */
  lemma NavigateRoundTrip(anchor: Instant)
    ensures AddDays(AddDays(anchor, 7), -7) == anchor
    ensures AddDays(AddDays(anchor, -7), 7) == anchor
  {
  }

  /** The week strip's own state: the date whose week is shown. */
  class WeeklyView {
    var weekStartDate: Instant

    constructor (now: Instant)
      ensures weekStartDate == now
    {
      weekStartDate := now;
    }

    /** `navigateWeek`: the anchor moves by seven days, keeping its clock time. */
    method NavigateWeek(direction: Direction)
      modifies this
      ensures weekStartDate == AddDays(old(weekStartDate), if direction == Next then 7 else -7)
    {
      var step := if direction == Next then 7 else -7;
      SetDateAddsDays(weekStartDate, step);
      weekStartDate := SetDate(weekStartDate, DateOf(weekStartDate) + step);
    }

    /**
     * `goToToday`: show the week of one reading of the clock and hand a
     * second reading to the selection.
     */
    method GoToToday(now1: Instant, now2: Instant) returns (select: Instant)
      modifies this
      ensures weekStartDate == now1 && select == now2
    {
      weekStartDate := now1;
      select := now2;
    }
  }

  /** When both readings fall on one day, the selected day is shown, at its weekday's column. */
  lemma TodayInShownWeek(now1: Instant, now2: Instant)
    requires DayOf(now1) == DayOf(now2)
    ensures IsSameDay(WeekOf(now1)[WeekDay(now2)], now2)
  {
    var w := WeekDay(now1);
    assert WeekDay(now2) == w;
    WeekOfProperties(now1);
    IsSameDayIffSameDay(WeekOf(now1)[w], now2);
  }

  /**
   * Readings taken either side of a Saturday midnight select a day the shown
   * week does not contain: the last millisecond of 3 January 1970, then the
   * first of 4 January.
   */
  lemma ReadingsAcrossMidnight()
    ensures var now1, now2 := 3 * MsPerDay - 1, 3 * MsPerDay;
            && now1 < now2
            && forall i :: 0 <= i < 7 ==> !IsSameDay(WeekOf(now1)[i], now2)
  {
    var now1, now2 := 3 * MsPerDay - 1, 3 * MsPerDay;
    assert DayOf(now1) == 2 && DayOf(now2) == 3;
    assert WeekDay(now1) == 6;
    forall i | 0 <= i < 7 ensures !IsSameDay(WeekOf(now1)[i], now2) {
      var x := WeekOf(now1)[i];
      assert x == AddDays(now1, i - 6);
      assert DayOf(x) < 3;
      IsSameDayIffSameDay(x, now2);
    }
  }

  // ---------------------------------------------------------------------------
  // Labels

  /** `formatTime`: "--:--" without a time, "All day" at midnight to the minute, otherwise "HH:MM". */
  function FormatTime(scheduledAt: Option<Instant>): (r: string)
    ensures scheduledAt.None? ==> r == "--:--"
    ensures (scheduledAt.Some? && HoursOf(scheduledAt.value) == 0 && MinutesOf(scheduledAt.value) == 0)
              ==> r == "All day"
    ensures (scheduledAt.Some? && !(HoursOf(scheduledAt.value) == 0 && MinutesOf(scheduledAt.value) == 0))
              ==> && |r| == 5 && r[2] == ':'
                  && AllDigits(r[..2]) && DigitsValue(r[..2]) == HoursOf(scheduledAt.value)
                  && AllDigits(r[3..]) && DigitsValue(r[3..]) == MinutesOf(scheduledAt.value)
  {
    match scheduledAt
    case None => "--:--"
    case Some(t) =>
      if HoursOf(t) == 0 && MinutesOf(t) == 0 then "All day"
      else
        ClockTextFields(t);
        ClockText(t)
  }

  /** `formatDateForApi`: the local date at "T00:00:00", with no offset, so it is read as local time. */
  function FormatDateForApi(date: Instant): string {
    DateText(date) + "T00:00:00"
  }

  /**
   * Read back by `new Date(...)`, the string is midnight at the start of the
   * given day, for every four-digit year.
   */
  lemma FormatDateForApiIsMidnight(date: Instant)
    requires 1000 <= FullYear(date) <= 9999
    ensures ParseIso(FormatDateForApi(date)) == Some(StartOfDay(date))
  {
    var d := CivilDateOf(date);
    ParseApiDate(d);
    MidnightInRange(date);
  }

  lemma ParseApiDate(d: CivilDate)
    requires ValidDate(d) && 1000 <= d.year <= 9999
    ensures ParseIso(DayText(d) + "T00:00:00") == Clip(MakeTime(d, 0, 0, 0, 0))
  {
    var yy, mo, dd := IntToString(d.year), Pad2(d.month), Pad2(d.day);
    var clock := "00" + ([':'] + "00" + ([':'] + "00"));
    var afterYear := ['-'] + mo + (['-'] + dd + (['T'] + clock));
    var s := DayText(d) + "T00:00:00";
    assert s == yy + afterYear;
    FourDigitDecimal(d.year);
    DecimalRoundTrip(d.year);
    ParseFourDigitYear(yy, afterYear);
    ParseDateFields(yy, d.year, mo, dd, ['T'] + clock);
    assert AllDigits("00") && DigitsValue("00") == 0;
    ParseClockHms("00", "00", "00");
    ParseIsoDateTimeLocal(s, d, clock, Clock(0, 0, 0, 0));
  }

  lemma MidnightInRange(date: Instant)
    requires 1000 <= FullYear(date) <= 9999
    ensures MakeTime(CivilDateOf(date), 0, 0, 0, 0) == StartOfDay(date)
    ensures -MaxTime <= StartOfDay(date) <= MaxTime
  {
    var d := CivilDateOf(date);
    DayNumberWithinYear(d);
    DaysBeforeYearMonotone(1000, d.year);
    DaysBeforeYearMonotone(d.year + 1, 10000);
  }

  /** The year is not padded: a date in a three-digit year gives a string outside the date-time format. */
  lemma FormatDateForApiShortYear(date: Instant)
    requires 100 <= FullYear(date) <= 999
    ensures FormatDateForApi(date)[3] == '-'
    ensures ParseIso(FormatDateForApi(date)) == None
  {
    var d := CivilDateOf(date);
    ShortYearUnparsed(d);
  }

  lemma ShortYearUnparsed(d: CivilDate)
    requires ValidDate(d) && 100 <= d.year <= 999
    ensures (DayText(d) + "T00:00:00")[3] == '-'
    ensures ParseIso(DayText(d) + "T00:00:00") == None
  {
    var y := d.year;
    DecimalLength(y, 3);
    DecimalLengthAtLeast(y, 3);
    assert Pow10(2) == 100 && Pow10(3) == 1000;
    var s := DayText(d) + "T00:00:00";
    assert s[..4] == IntToString(y) + "-";
    assert s[3] == '-';
    assert !AllDigits(s[..4]);
    assert ParseYear(s) == None;
  }

  // ---------------------------------------------------------------------------
  // Todos of one day

  predicate ScheduledOn(t: Todo, date: Instant) {
    t.scheduledAt.Some? && IsSameDay(t.scheduledAt.value, date)
  }

  /** The `filter` step of `getTodosForDate`. */
  function FilterOnDay(todos: seq<Todo>, date: Instant): (r: seq<Todo>)
    ensures forall i :: 0 <= i < |r| ==> ScheduledOn(r[i], date)
  {
    if todos == [] then []
    else (if ScheduledOn(todos[0], date) then [todos[0]] else []) + FilterOnDay(todos[1..], date)
  }

  lemma {:induction false} FilterOnDayCounts(todos: seq<Todo>, date: Instant)
    ensures forall t :: multiset(FilterOnDay(todos, date))[t] == if ScheduledOn(t, date) then multiset(todos)[t] else 0
    decreases |todos|
  {
    if todos != [] {
      assert todos == [todos[0]] + todos[1..];
      FilterOnDayCounts(todos[1..], date);
    }
  }

  /** The comparator of `getTodosForDate`: 0 when either time is missing, else the difference of the times. */
  function DayCompare(a: Todo, b: Todo): int {
    if a.scheduledAt.None? || b.scheduledAt.None? then 0
    else a.scheduledAt.value - b.scheduledAt.value
  }

  predicate DayLe(a: Todo, b: Todo) {
    DayCompare(a, b) <= 0
  }

  /**
   * `getTodosForDate`: exactly the input's todos scheduled on that day, each as
   * often as in the input, in order of scheduled time.
   */
  function GetTodosForDate(todos: seq<Todo>, date: Instant): (r: seq<Todo>)
    ensures forall t :: multiset(r)[t] == if ScheduledOn(t, date) then multiset(todos)[t] else 0
    ensures forall i :: 0 <= i < |r| ==> r[i] in todos && ScheduledOn(r[i], date)
    ensures forall i, j :: 0 <= i < j < |r| ==> && r[i].scheduledAt.Some? && r[j].scheduledAt.Some?
                                                && r[i].scheduledAt.value <= r[j].scheduledAt.value
  {
    var onDay := FilterOnDay(todos, date);
    FilterOnDayCounts(todos, date);
    var r := SortByTime(onDay);
    assert forall i :: 0 <= i < |r| ==> r[i] in todos && ScheduledOn(r[i], date) by {
      forall i | 0 <= i < |r| ensures r[i] in todos && ScheduledOn(r[i], date) {
        assert r[i] in multiset(r);
        assert r[i] in multiset(onDay);
      }
    }
    r
  }

  /** The `sort` step of `getTodosForDate`, on todos that all have a time. */
  function SortByTime(s: seq<Todo>): (r: seq<Todo>)
    requires forall i :: 0 <= i < |s| ==> s[i].scheduledAt.Some?
    ensures multiset(r) == multiset(s)
    ensures forall i, j :: 0 <= i < j < |r| ==> && r[i].scheduledAt.Some? && r[j].scheduledAt.Some?
                                                && r[i].scheduledAt.value <= r[j].scheduledAt.value
  {
    var timed := set t: Todo | t in s && t.scheduledAt.Some?;
    assert Within(s, timed);
    InsertionSortSorted(s, DayLe, timed);
    InsertionSortWithin(s, DayLe, timed);
    InsertionSortCounts(s, DayLe);
    var r := InsertionSort(s, DayLe);
    assert forall i, j :: 0 <= i < j < |r| ==> && r[i].scheduledAt.Some? && r[j].scheduledAt.Some?
                                               && r[i].scheduledAt.value <= r[j].scheduledAt.value by {
      forall i, j | 0 <= i < j < |r|
        ensures r[i].scheduledAt.Some? && r[j].scheduledAt.Some? && r[i].scheduledAt.value <= r[j].scheduledAt.value
      {
        assert DayLe(r[i], r[j]);
      }
    }
    r
  }

  /** How many todos of the input are scheduled on the day, counted one by one. */
  function CountOnDay(todos: seq<Todo>, date: Instant): nat {
    if todos == [] then 0
    else (if ScheduledOn(todos[0], date) then 1 else 0) + CountOnDay(todos[1..], date)
  }

  lemma {:induction false} FilterOnDayLength(todos: seq<Todo>, date: Instant)
    ensures |FilterOnDay(todos, date)| == CountOnDay(todos, date)
    decreases |todos|
  {
    if todos != [] {
      FilterOnDayLength(todos[1..], date);
    }
  }

  /** `getTodoCount`: the badge shows how many todos are scheduled on the day. */
  function GetTodoCount(todos: seq<Todo>, day: Instant): (n: nat)
    ensures n == CountOnDay(todos, day)
    ensures n <= |todos|
  {
    var r := GetTodosForDate(todos, day);
    FilterOnDayCounts(todos, day);
    FilterOnDayLength(todos, day);
    assert multiset(r) == multiset(FilterOnDay(todos, day));
    assert |r| == |multiset(r)| == |FilterOnDay(todos, day)|;
    CountAtMost(todos, day);
    |r|
  }

  lemma {:induction false} CountAtMost(todos: seq<Todo>, date: Instant)
    ensures CountOnDay(todos, date) <= |todos|
    decreases |todos|
  {
    if todos != [] {
      CountAtMost(todos[1..], date);
    }
  }

  // ---------------------------------------------------------------------------
  // Drop to schedule

  datatype ViewMode = Month | Week

  /** The calendar's own state: the selected day and the view mode. */
  class Calendar {
    var selectedDate: Option<Instant>
    var viewMode: ViewMode

    constructor (now: Instant)
      ensures selectedDate == Some(now) && viewMode == Month
    {
      selectedDate := Some(now);
      viewMode := Month;
    }

    method SelectDate(date: Option<Instant>)
      modifies this
      ensures selectedDate == date && viewMode == old(viewMode)
    {
      selectedDate := date;
    }

    method SetViewMode(mode: ViewMode)
      modifies this
      ensures viewMode == mode && selectedDate == old(selectedDate)
    {
      viewMode := mode;
    }

    /**
     * `handleDayDrop`: with a non-empty dragged id that names a todo, send an
     * update that keeps its text and schedules it at midnight of the day;
     * select the day if that succeeded, and clear the dragged id either way.
     * Otherwise nothing happens.
     */
    method HandleDayDrop(date: Instant, provider: TodoProvider, reply: Reply<Todo>) returns (request: Option<Request>)
      modifies this, provider
      ensures var dragged := old(provider.draggedTodoId);
              var found := if dragged.Some? && dragged.value != "" then FindById(old(provider.todos), dragged.value) else None;
              if found.None? then
                && request.None?
                && provider.todos == old(provider.todos) && provider.draggedTodoId == dragged
                && selectedDate == old(selectedDate)
              else
                && request == Some(Request(Put, ItemUrl(dragged.value),
                                           Some(MakePayload(found.value.text, Some(FormatDateForApi(date))))))
                && (reply.Ok? ==> provider.todos == SortTodos(ReplaceById(old(provider.todos), dragged.value, reply.value))
                                  && selectedDate == Some(date))
                && (!reply.Ok? ==> provider.todos == old(provider.todos) && selectedDate == old(selectedDate))
                && provider.draggedTodoId == None
      ensures provider.isLoading == old(provider.isLoading) && provider.error == old(provider.error)
      ensures viewMode == old(viewMode)
    {
      request := None;
      var currentDraggedId := provider.draggedTodoId;
      if currentDraggedId.Some? && currentDraggedId.value != "" {
        var todo := FindById(provider.todos, currentDraggedId.value);
        if todo.Some? {
          var sent := MoveTo(currentDraggedId.value, todo.value.text, date, provider, reply);
          request := Some(sent);
        }
      }
    }

    /** The found-todo branch of `handleDayDrop`: update, select the day on success, clear the dragged id. */
    method MoveTo(id: string, text: string, date: Instant, provider: TodoProvider, reply: Reply<Todo>) returns (request: Request)
      modifies this, provider
      ensures request == Request(Put, ItemUrl(id), Some(MakePayload(text, Some(FormatDateForApi(date)))))
      ensures reply.Ok? ==> provider.todos == SortTodos(ReplaceById(old(provider.todos), id, reply.value))
                            && selectedDate == Some(date)
      ensures !reply.Ok? ==> provider.todos == old(provider.todos) && selectedDate == old(selectedDate)
      ensures provider.draggedTodoId == None
      ensures provider.isLoading == old(provider.isLoading) && provider.error == old(provider.error)
      ensures viewMode == old(viewMode)
    {
      var scheduledAt := FormatDateForApi(date);
      var thrown;
      request, thrown := provider.UpdateTodo(id, text, Some(scheduledAt), reply);
      if thrown.None? {
        selectedDate := Some(date);
      }
      provider.SetDraggedTodoId(None);
    }
  }
}
