# Todo calendar: a verified model of the scheduling core

This project models the logic that keeps a todo list and a calendar consistent:

- **Client collection manager (`TodoContext`).** It holds the todo collection and keeps it sorted: scheduled todos come first, by scheduled time, and unscheduled ("backlog") todos follow, by creation time. It applies an add, update or delete only after the server answers OK.
- **Calendar (`CalendarView`).** It covers:
  - the Sunday-started week strip and its navigation;
  - the per-day todo lists and badge counts;
  - the "HH:MM" / "All day" time labels;
  - scheduling a backlog todo by dropping it on a day, which sends midnight of that day as "YYYY-MM-DDT00:00:00".
- **List form (`TodoList`).** It covers:
  - the "No date set" / "YYYY-MM-DD" / "YYYY-MM-DD HH:MM" labels;
  - loading a todo's date and time into the edit fields;
  - turning a typed date and time into the ISO string sent to the server (`createLocalDateISO`);
  - the submit, edit, delete and drag handlers, with their validation, defaulting and resets.
- **Collection endpoint (`Route`).** POST guards the text and the date, then creates one record. GET lists the store by scheduled time (nulls last), then by creation time. `serializeTodo` writes both times as ISO strings.

The supporting modules model the JavaScript built-ins the core relies on:

- `LocalTime`: `Date` time values and their local fields.
- `IsoDate`: `toISOString` and the date-time string format that `new Date(string)` reads.
- `Strings`: `String(n)`, `padStart`, `trim`, `split`, and `Number` on form input.
- `Render`: the two text forms both views share.
- `Sorting`: the stable sort that `Array.prototype.sort` performs.

How the model is set up:

- **Time values.** A time value is an integer number of milliseconds since 1970-01-01T00:00. The local time zone is taken to be UTC without daylight saving, so the local fields and the UTC fields of a `Date` coincide.
- **Times inside a todo.** The client's `Todo` keeps the instants that its ISO strings denote. `Route.SerializeRoundTrip` proves that a client decoding what the server sends gets back the stored todo.
- **Outside the program.** `fetch` replies, the clock (`new Date()`), and the record store's id and creation time are parameters of the operations that use them:
  - a reply is `Ok`, `HttpError` (with the body's `error` field) or `NetworkFailure`;
  - the store's contents are a sequence value.
- **State.** State that the source keeps in React `useState` is modelled as a class with fields:
  - `TodoProvider` for the collection;
  - `WeeklyView` and `Calendar` for the calendar;
  - `TodoForm` for the list form.

  Each handler is a method that says exactly what it changes.

## Model

| member | source | states |
|---|---|---|
| TodoContext.CompareConsistent | src/context/TodoContext.tsx:29-38 | The comparator is antisymmetric in sign and transitive, as a sort comparator must be. |
| TodoContext.ClientLeTotalPreorder | src/context/TodoContext.tsx:29-38 | "May stay in front" (comparator at most 0) is a total preorder on todos. |
| TodoContext.ClientSortedIffGrouped | src/context/TodoContext.tsx:30-37 | Sorted by the comparator holds exactly when three rules hold: scheduled before unscheduled, scheduled times nondecreasing, and unscheduled creation times nondecreasing. |
| TodoContext.SortTodos | src/context/TodoContext.tsx:28-29 | The sorted copy holds exactly the input's todos, each as often. The input is a value and is left as it was. |
| TodoContext.SortTodosOrdered | src/context/TodoContext.tsx:30-37 | The sorted copy obeys the comparator, and so the three grouping rules. |
| TodoContext.SortTodosOfSorted | src/context/TodoContext.tsx:28-39 | Re-sorting an already sorted collection returns it unchanged, because the sort is stable. |
| TodoContext.ReplaceById | src/context/TodoContext.tsx:96 | Same length. Every entry with the id becomes the server's todo, and every other entry stays as it was. |
| TodoContext.RemoveById | src/context/TodoContext.tsx:109 | No todo with the id survives the filter. Every other todo keeps its multiplicity, and the result is never longer than the input. |
| TodoContext.RemoveByIdAppend | src/context/TodoContext.tsx:109 | The filter distributes over concatenation, so the survivors keep their relative order. |
| TodoContext.RemoveByIdSorted | src/context/TodoContext.tsx:109 | Filtering a sorted collection leaves it sorted without a re-sort. |
| TodoContext.FindById | todo-calendar/src/components/CalendarView.tsx:324 | `find` gives None exactly when no todo has the id. Otherwise it gives the first todo with the id. |
| TodoContext.PayloadAtServer | src/context/TodoContext.tsx:67-72 | An add request, as the collection endpoint handles it:<ul><li>Empty text is refused with "Text is required".</li><li>A missing or empty time is sent as null and stored as no schedule.</li><li>Any other time is stored as the instant it parses to, or refused with "Invalid date/time format" when it does not parse.</li></ul> |
| TodoContext.TodoProvider.constructor | src/context/TodoContext.tsx:42-45 | Initial state: no todos, loading, no error, nothing dragged. |
| TodoContext.TodoProvider.FetchTodos | src/context/TodoContext.tsx:47-61 | On OK, the server's list replaces the collection. On failure, the collection is kept and the error becomes "Failed to load todos". Either way loading ends. |
| TodoContext.TodoProvider.AddTodo | src/context/TodoContext.tsx:67-81 | Sends POST /api/todos with the payload. On OK, the collection becomes the sorted previous collection plus the new todo, which is one longer and contains it. Otherwise it throws the failure message and keeps the collection. |
| TodoContext.TodoProvider.UpdateTodo | src/context/TodoContext.tsx:83-98 | Sends PUT /api/todos/{id}. On OK, the collection becomes the sorted replacement by id, of the same length. Otherwise it throws "Failed to update todo", or the network message, and keeps the collection. |
| TodoContext.TodoProvider.DeleteTodo | src/context/TodoContext.tsx:100-110 | Sends DELETE /api/todos/{id}. On OK, it removes every entry with the id, without re-sorting. Otherwise it throws "Failed to delete todo", or the network message, and keeps the collection. |
| TodoContext.TodoProvider.SetDraggedTodoId | src/context/TodoContext.tsx:45 | Only the dragged id changes. |
| TodoContext.TransitionsKeepOrder | src/context/TodoContext.tsx:80-109 | From a sorted collection, a successful add, update or delete leaves a sorted collection. |
| TodoContext.ListingIsClientSorted | src/context/TodoContext.tsx:53-54 | The server's GET listing already obeys the client order. Storing it unsorted keeps the collection sorted, and sorting it would change nothing. |
| TodoContext.UpdateTieOrder | src/context/TodoContext.tsx:95-97 | Counterexample. After an update moves a todo onto another's scheduled time, the client keeps the collection order for the tie. The server lists that tie the other way round, by creation time. |
| CalendarView.IsSameDayIffSameDay | todo-calendar/src/components/CalendarView.tsx:27-33 | Equal year, month and day hold exactly when the two instants fall on the same calendar day. |
| CalendarView.IsSameDayProperties | todo-calendar/src/components/CalendarView.tsx:27-33 | The comparison is reflexive and symmetric. It ignores the clock: two times share a day exactly when they share its midnight. |
| CalendarView.WeekOfProperties | todo-calendar/src/components/CalendarView.tsx:12-24 | The week starts on a Sunday and has seven consecutive days, whose weekdays are 0 to 6. The argument is among them, at its own weekday. |
| CalendarView.GetWeekDays | todo-calendar/src/components/CalendarView.tsx:12-25 | The loop, which steps back to Sunday with `setDate` and pushes seven `setDate` copies, builds exactly the week of the date. |
| CalendarView.WeekOfNextWeek | todo-calendar/src/components/CalendarView.tsx:128-132 | Moving the anchor seven days on shows each day of the week seven days later. |
| CalendarView.NavigateRoundTrip | todo-calendar/src/components/CalendarView.tsx:128-132 | "next" then "prev", or "prev" then "next", returns the anchor to the same instant. |
| CalendarView.WeeklyView.constructor | todo-calendar/src/components/CalendarView.tsx:123 | The anchor starts at the current time. |
| CalendarView.WeeklyView.NavigateWeek | todo-calendar/src/components/CalendarView.tsx:128-132 | The anchor moves by exactly +7 or -7 days and keeps its clock time. |
| CalendarView.WeeklyView.GoToToday | todo-calendar/src/components/CalendarView.tsx:134-137 | The clock is read twice: the anchor becomes the first reading and the selected date the second. |
| CalendarView.TodayInShownWeek | todo-calendar/src/components/CalendarView.tsx:134-137 | When both readings fall on one day, the selected day is in the shown week, at its weekday's column. |
| CalendarView.ReadingsAcrossMidnight | todo-calendar/src/components/CalendarView.tsx:134-137 | Counterexample. Readings either side of a Saturday midnight select a day that the shown week does not contain. |
| CalendarView.FormatTime | todo-calendar/src/components/CalendarView.tsx:35-45 | "--:--" without a time, and "All day" at hour 0 and minute 0. Otherwise five characters, where the two digits before the colon are the hour and the two after it are the minute. |
| CalendarView.FormatDateForApiIsMidnight | todo-calendar/src/components/CalendarView.tsx:48-53 | For a four-digit year, the string reads back as midnight at the start of the given day. |
| CalendarView.ParseApiDate | todo-calendar/src/components/CalendarView.tsx:52 | "Y-MM-DDT00:00:00" for a valid date with a four-digit year is read as local midnight of that date. |
| CalendarView.FormatDateForApiShortYear | todo-calendar/src/components/CalendarView.tsx:49-52 | For a three-digit year, the year is not padded, and the string is not a valid date. |
| CalendarView.FilterOnDay | todo-calendar/src/components/CalendarView.tsx:57-61 | Every todo kept is scheduled on the given day. |
| CalendarView.FilterOnDayCounts | todo-calendar/src/components/CalendarView.tsx:57-61 | No todo scheduled on the day is dropped, each keeps its multiplicity, and no other todo is kept. |
| CalendarView.SortByTime | todo-calendar/src/components/CalendarView.tsx:62-65 | A permutation of its input, ordered by scheduled time. |
| CalendarView.GetTodosForDate | todo-calendar/src/components/CalendarView.tsx:55-66 | The result is exactly the input's todos scheduled on that day, each as often, in nondecreasing scheduled time. |
| CalendarView.GetTodoCount | todo-calendar/src/components/CalendarView.tsx:148 | The badge is the length of the day's list: the number of todos scheduled on that day, counted one by one. It is at most the number of todos. |
| CalendarView.CountAtMost | todo-calendar/src/components/CalendarView.tsx:148 | The per-day count never exceeds the number of todos. |
| CalendarView.Calendar.constructor | todo-calendar/src/components/CalendarView.tsx:277-278 | The current day is selected, in month view. |
| CalendarView.Calendar.SelectDate | todo-calendar/src/components/CalendarView.tsx:277 | Only the selection changes. |
| CalendarView.Calendar.SetViewMode | todo-calendar/src/components/CalendarView.tsx:278 | Only the view mode changes. |
| CalendarView.Calendar.HandleDayDrop | todo-calendar/src/components/CalendarView.tsx:319-336 | Without a non-empty dragged id that names a todo, nothing is sent and nothing changes. Otherwise it sends an update with the todo's text and midnight of the day. On success it selects the day and takes the server's todo. On failure it keeps both. Either way the dragged id is cleared. |
| CalendarView.Calendar.MoveTo | todo-calendar/src/components/CalendarView.tsx:326-333 | The found-todo branch: the update request, the day selected only on success, and the dragged id cleared. |
| TodoList.FormatDateTime | todo-calendar/src/components/TodoList.tsx:15-16 | "No date set" without a time. |
| TodoList.FormatDateTimeFromParts | todo-calendar/src/components/TodoList.tsx:15-28 | With a time, the label is the edit form's date, followed by a space and its "HH:MM" unless the time is midnight. |
| TodoList.FormatDateTimeShape | todo-calendar/src/components/TodoList.tsx:24-27 | For a four-digit year, the label is 10 characters at midnight. Otherwise it is 16, with a space at position 10 and a colon at 13. |
| TodoList.GetDateFromIso | todo-calendar/src/components/TodoList.tsx:30-37 | "" exactly when there is no time. |
| TodoList.GetTimeFromIso | todo-calendar/src/components/TodoList.tsx:39-45 | "" exactly when there is no time. Otherwise five characters. |
| Render.ClockTextFields | todo-calendar/src/components/TodoList.tsx:42-44 | "HH:MM" is five characters, and its digit pairs are the padded hour and minute. |
| Render.DateTextFields | todo-calendar/src/components/TodoList.tsx:33-36 | For a four-digit year, "YYYY-MM-DD" is ten characters, and its digit groups are the year, month and day. |
| TodoList.CreateLocalDateIsoAgreement | todo-calendar/src/components/TodoList.tsx:48-54 | The code as written and the corrected conversion agree whenever the year read is not 0 to 99. |
| TodoList.ReadInputs | todo-calendar/src/components/TodoList.tsx:49-50 | Splitting "YYYY-MM-DD" on "-" and "HH:MM" on ":" and applying `Number` gives back the five numbers. |
| TodoList.LocalDateValueOfDate | todo-calendar/src/components/TodoList.tsx:52 | For a month 1 to 12, the constructor's arithmetic is the time value of that date and clock. |
| TodoList.CreateLocalDateIsoDenotes | todo-calendar/src/components/TodoList.tsx:48-54 | A well-formed typed date and time become an ISO string that denotes exactly that local date, hour and minute. |
| TodoList.CreateLocalDateIsoRoundTrip | todo-calendar/src/components/TodoList.tsx:48-54 | Decoded with `getTimeFromISO`, the string gives back the typed time. Decoded with `getDateFromISO`, it gives back the typed date (for four-digit years). Its calendar date is the typed date for every year. |
| TodoList.CreateLocalDateIsoAsWrittenShiftsYear | todo-calendar/src/components/TodoList.tsx:52 | As written, a typed year 0 to 99 is stored as 1900 plus it, so the typed date is lost. |
| TodoList.CreateLocalDateIsoYear50 | todo-calendar/src/components/TodoList.tsx:48-54 | "0050-06-15" at "10:30" is stored in the year 1950. |
| TodoList.CreateLocalDateIsoAsWrittenDenotes | todo-calendar/src/components/TodoList.tsx:48-54 | As written, every well-formed typed date and time is stored as that clock time on the day the constructor reads (`TypedDay`). From the year 100 on this is the typed date. A two-digit year gives the same day in the 1900s. 29 February of the year 0 gives 1 March 1900. |
| TodoList.EditRoundTrip | todo-calendar/src/components/TodoList.tsx:100-124 | Editing a todo without touching its fields re-sends, through the conversion as written, the same local date, hour and minute. |
| TodoList.MinuteOfInstant | todo-calendar/src/components/TodoList.tsx:52 | That re-sent time is the original with its seconds and milliseconds dropped. |
| TodoList.EditDateInput | todo-calendar/src/components/TodoList.tsx:103 | For a four-digit year, the date edit field holds exactly what a date input holds. |
| TodoList.EditTimeInput | todo-calendar/src/components/TodoList.tsx:104 | For every scheduled todo, the time edit field holds exactly what a time input holds. |
| TodoList.ScheduleFrom | todo-calendar/src/components/TodoList.tsx:80-85 | No date gives no schedule. A date gives a schedule or throws, and what it throws is "Invalid time value". |
| TodoList.ScheduleDefaultsToMidnight | todo-calendar/src/components/TodoList.tsx:83 | An empty time is the same as "00:00". |
| TodoList.DateOnlyIsAllDay | todo-calendar/src/components/TodoList.tsx:81-85 | A date without a time is sent as midnight, an all-day todo, of the day the constructor reads: the typed date from the year 100 on. |
| TodoList.TodoForm.constructor | todo-calendar/src/components/TodoList.tsx:58-68 | Every input and edit field starts empty, with nothing submitting and no error. |
| TodoList.TodoForm.HandleSubmit | todo-calendar/src/components/TodoList.tsx:70-98 | Each of four outcomes fixes what is sent and what changes:<ul><li>Blank text: the message "Please enter a todo description", nothing sent, nothing else changed.</li><li>An invalid date: the error escapes with `isSubmitting` left set.</li><li>Success: the todo is added, the inputs are cleared and submitting ends.</li><li>Failure: the thrown message is shown, the inputs are kept and submitting ends.</li></ul>The edit fields are never touched. |
| TodoList.TodoForm.AddAndReset | todo-calendar/src/components/TodoList.tsx:87-97 | The `try` of `handleSubmit`: on success, the add takes effect and the inputs are cleared. On failure, the message is shown. Submitting ends in both cases. |
| TodoList.TodoForm.StartEditing | todo-calendar/src/components/TodoList.tsx:100-105 | The edit fields get the todo's id, its text and its rendered date and time. The row being edited can no longer be dragged. |
| TodoList.TodoForm.CancelEditing | todo-calendar/src/components/TodoList.tsx:107-112 | Every edit field is reset to empty. Afterwards a todo is draggable exactly when it is unscheduled. |
| TodoList.TodoForm.HandleUpdate | todo-calendar/src/components/TodoList.tsx:114-132 | Blank edit text sends nothing and changes nothing, and an invalid date escapes before any request. Otherwise the update is sent with the defaulted schedule. Only a success ends editing; a failure keeps the edit state. |
| TodoList.TodoForm.HandleDelete | todo-calendar/src/components/TodoList.tsx:134-140 | The delete is sent. Only a success removes the todo, and a failure is swallowed. |
| TodoList.TodoForm.HandleDragStart | todo-calendar/src/components/TodoList.tsx:191-198 | Only an unscheduled todo becomes the dragged one. |
| TodoList.TodoForm.HandleDragEnd | todo-calendar/src/components/TodoList.tsx:199-201 | The dragged id is cleared and nothing else changes. |
| Route.NewDate | todo-calendar/src/app/api/todos/route.ts:39-40 | `new Date(v)` is valid only within the ECMAScript time range. A number is valid exactly when it lies in that range. |
| Route.NewDateOfIso | todo-calendar/src/app/api/todos/route.ts:39 | An ISO string written by `toISOString` is accepted as the same instant. |
| Route.SerializeTodo | todo-calendar/src/app/api/todos/route.ts:5-17 | The id, text and completed flag are kept, and the schedule is null exactly when it was null. |
| Route.SerializeRoundTrip | todo-calendar/src/app/api/todos/route.ts:12-16 | Decoding the serialised todo with `new Date` on both times gives back the stored todo. |
| Route.SerializeAllRoundTrip | todo-calendar/src/app/api/todos/route.ts:26 | `map(serializeTodo)` gives one wire todo per record, and each decodes back to its record. |
| Route.StoreLeTotalPreorder | todo-calendar/src/app/api/todos/route.ts:21-24 | The `orderBy` comparison is a total preorder. |
| Route.StoreSortedIffOrdered | todo-calendar/src/app/api/todos/route.ts:21-24 | Sorted by `orderBy` holds exactly when three rules hold: scheduled before null, scheduled time ascending, and creation time ascending among equal schedules. |
| Route.StoreOrder | todo-calendar/src/app/api/todos/route.ts:20-25 | The listing is a permutation of the store that obeys the ordering contract. |
| Route.GetRoundTrip | todo-calendar/src/app/api/todos/route.ts:19-27 | Status 200 and one wire todo per stored record. Each decodes back to the record at the same position of the ordered listing. |
| Route.Post | todo-calendar/src/app/api/todos/route.ts:29-53 | Two guards, checked in this order, each reply 400 and leave the store unchanged:<ul><li>Missing, non-string or empty text gives "Text is required".</li><li>A truthy unparsable `scheduledAt` gives "Invalid date/time format".</li></ul>Status 201 comes exactly when both guards pass. It appends one record and returns it serialised. |
| Route.PostAcceptsWhitespace | todo-calendar/src/app/api/todos/route.ts:33-35 | Every non-empty text passes the guard, whitespace-only text included, and is stored as sent. |
| Route.CreateThenList | todo-calendar/src/app/api/todos/route.ts:45-52 | After a successful POST with a fresh id, GET lists the created record exactly once, and no other record carries its id. |
| Route.ListedOnce | todo-calendar/src/app/api/todos/route.ts:20-25 | A record appended with a fresh id appears exactly once in the ordered listing. |
| Strings.Pad2 | todo-calendar/src/components/TodoList.tsx:19-20 | `String(n).padStart(2, "0")` is two digits for n below 100, and reads back as n. |
| Strings.PadZerosShape | todo-calendar/src/components/TodoList.tsx:19 | The padded string is `width` long, or as long as the input when that is longer. It ends with the input and holds only zeros before it. |
| Strings.DecimalRoundTrip | todo-calendar/src/components/TodoList.tsx:25 | `String(n)` reads back as n. |
| Strings.IntToStringDigits | todo-calendar/src/components/TodoList.tsx:25 | `String(n)` starts with a minus sign exactly for negative n. The digits after it read back as the absolute value. |
| Strings.TrimEmptyIffBlank | todo-calendar/src/components/TodoList.tsx:74 | `!s.trim()` holds exactly when every character is JavaScript whitespace. |
| Strings.SplitThree | todo-calendar/src/components/TodoList.tsx:49 | Splitting three separator-free pieces joined by the separator gives the three pieces. |
| Strings.SplitTwo | todo-calendar/src/components/TodoList.tsx:50 | The same for two pieces. |
| Strings.JsNumber | todo-calendar/src/components/TodoList.tsx:49-50 | `Number` of a digit string is its decimal value. |
| Strings.JsNumberOfBlank | todo-calendar/src/components/TodoList.tsx:49-50 | `Number` of an empty or all-whitespace string is 0. |
| LocalTime.DayNumberInjective | todo-calendar/src/components/CalendarView.tsx:27-33 | Different valid calendar days have different day numbers. |
| LocalTime.DateOfDayNumber | todo-calendar/src/components/CalendarView.tsx:29-31 | Every valid calendar day is recovered from its day number. |
| LocalTime.MakeTimeFields | todo-calendar/src/components/TodoList.tsx:52 | Every local field read from a time value built from fields gives that field back. |
| LocalTime.Decompose | todo-calendar/src/components/TodoList.tsx:17-22 | A time value is rebuilt from its own local fields. |
| LocalTime.SetDate | todo-calendar/src/components/CalendarView.tsx:16 | `setDate(n)` moves to day n of the same month, rolling over into neighbouring months, with the same clock time. |
| LocalTime.SetDateAddsDays | todo-calendar/src/components/CalendarView.tsx:21 | `setDate(getDate() + k)` moves by exactly k days. |
| LocalTime.WeekDayAddDays | todo-calendar/src/components/CalendarView.tsx:13 | `getDay` advances by k modulo 7 when the date moves k days. |
| LocalTime.AddDays | todo-calendar/src/components/CalendarView.tsx:130 | Moving k days changes the day by k and keeps the time within the day. |
| IsoDate.IsoRoundTrip | todo-calendar/src/app/api/todos/route.ts:14-15 | For every valid time value, `new Date` reads what `toISOString` writes back as the same time value. |

## Left out

- Time zones and daylight saving. The local time zone is UTC, so local and UTC fields coincide. A date-only string and a date-time string without an offset mean the same instant, and `toISOString` only reformats.
- Parsing of non-ISO strings. `new Date(string)` is modelled for the ECMAScript date-time string format: `YYYY`, with optional `-MM` and `-DD`, an optional time, and `Z` or `±HH:mm`. The engines' fallback parsers for other formats are not modelled; such strings are treated as invalid dates.
- `Number` on anything other than what date and time inputs produce. Signs, decimal points, exponents and hexadecimal are read as NaN.
- JSON fractional numbers, arrays and non-object bodies in POST. Numbers are integers, and an array or object value of `scheduledAt` is an invalid date.
- A body that is not an object at all, where destructuring it would throw, is not modelled.
- A `response.json()` that fails, whether on an error reply or on a success reply. The reply's body is given as already decoded.
- The message of a rejected `fetch`. It is a parameter of the reply.
- The id and creation time the record store assigns. These are parameters.
- The store's order for records equal on both `orderBy` keys. The model keeps them in store order.
- The PUT and DELETE server handlers. The client side of both is modelled; the handlers' source is not part of this model.
- DOM and rendering:
  - `findDayUnderCursor` and the overlay drag handlers (DOM hit-testing);
  - the locale month and year labels (`toLocaleDateString`);
  - the JSX;
  - the React effects and refs, which are taken as synchronised, with each handler one atomic step;
  - `console.error` logging.
- The time range of `setDate`. `SetDate` and `AddDays` do not apply TimeClip, because the weeks shown are near the current date.
- `TodoList.FormatDateTime`: its own contract covers only the missing-time case. The label with a time is stated by `TodoList.FormatDateTimeFromParts` (the date, then " HH:MM" unless at midnight) and `TodoList.FormatDateTimeShape` (lengths and separators).
- `TodoList.EditRoundTrip`: states the re-sent time as the time value of the same date, hour and minute, not as a subtraction. `TodoList.MinuteOfInstant` shows that this is the original without its seconds and milliseconds.
- `TodoList.TodoForm.HandleSubmit`: states blank text through `Trim(text) == ""`. `Strings.TrimEmptyIffBlank` gives that its meaning (all whitespace).
- `Strings.JsNumber`: does not state that whitespace around the digits is ignored. The inputs it reads hold no whitespace, so only digit strings (`Strings.JsNumber`) and blank strings (`Strings.JsNumberOfBlank`) are stated.
- `IsoDate.ParseIso`: its own contract states only that the result is a valid time value. What it reads is stated by `IsoDate.IsoRoundTrip` and `CalendarView.ParseApiDate`.
- Zero-padding of the year. The years the form and the calendar write are `String(year)`, not padded, while months, days, hours and minutes are padded. The model writes the year as the code does, so the round-trip lemmas that compare strings are stated for four-digit years. `CalendarView.FormatDateForApiShortYear` shows a three-digit year yielding a string that the date parser refuses.

## Findings

| source | as written | input that shows it | evidently intended | confidence | as-written member | corrected member |
|---|---|---|---|---|---|---|
| todo-calendar/src/components/TodoList.tsx:52 | `new Date(year, month - 1, day, hours, minutes, 0)` treats a year from 0 to 99 as 1900 plus that year | date "0050-06-15", time "10:30" is stored in the year 1950 (`TodoList.CreateLocalDateIsoYear50`) | the typed year is kept, so decoding gives back the typed date | not executed; needs a year below 100 typed into the date input | TodoList.CreateLocalDateIsoAsWrittenShiftsYear | TodoList.CreateLocalDateIsoRoundTrip |

The form handlers in the model use the conversion as the code writes it, `TodoList.CreateLocalDateIsoAsWritten`, and `TodoList.CreateLocalDateIsoAsWrittenDenotes` states what they store for every year. The corrected conversion `TodoList.CreateLocalDateIso` carries the intended round trip. `TodoList.CreateLocalDateIsoAgreement` shows that the two agree whenever the year read is not 0 to 99.
