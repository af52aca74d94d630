# Habit tracker: a verified model of its core

The habit tracker keeps a list of habits. Each habit has an id, a name, a creation time and
the list of calendar days on which it was done (`YYYY-MM-DD` strings). It comes in two
front ends and one back end:

- `app.js` is a browser client that keeps its habits in local storage. It adds a habit from a
  trimmed, non-empty name. It deletes a habit after the user confirms. It toggles a day on or
  off, marks today, and shows a 90-day calendar and statistics.
- `app-backend.js` is the client for the server. It changes its local copy only after the
  server answers `ok`. It applies the server's `completed` flag to the clicked day. It shows a
  30-day calendar, the Monday-first current week and statistics, and it toggles todos.
- `server.js` is an Express server over a JSON store of users, habits and completions
  (habit id, date). It registers users, lists a user's habits with their completed dates,
  creates, deletes and toggles, and answers CORS requests from a list of allowed origins.

The model is split into these modules:

- `Dates`: day numbers (0 is 1970-01-01) and the proleptic Gregorian calendar, both
  directions. It also holds the `YYYY-MM-DD` string, the weekday and the `formatDate` label.
- `Text`: trimming, decimal text, `padStart`, the `Number()` conversion of digit strings, and
  split and join.
- `Streaks`: the current streak, the longest streak, the completion rate and the statistics
  record.
- `Views`: the calendar strip and the current week.
- `LocalTracker`: the local-storage client.
- `BackendClient`: the server client.
- `JsonStore`: the server's JSON store and its habit routes.
- `Origins`: the CORS origin list.

Stored dates are day numbers in the clients. `getDateString` rebuilds its date with
`new Date(year, month, day)`, and that constructor reads a year from 0 to 99 as 1900 + year.
Outside those years, `DateStringInjective` shows that two days have the same date string
exactly when they are the same day. So the source's `includes`, `indexOf` and `filter` on
date strings are modelled on day numbers. Inside those years a day shares its string with
the same date 1900 years later (`Dates.ShortYearCollides`). The server compares date
strings as it receives them, so `JsonStore` keeps them as strings.

The current streak follows the code as written. The walk back from today passes over one
missing day, and stops at the first two missing days in a row
(`projects/habit-tracker/app-backend.js:479-490`, `projects/habit-tracker/app.js:132-144`).
So the walk counts a run that ends yesterday, and a run broken by single missing days. The
current streak can therefore be longer than the longest streak, which counts only days in a
row:

- `Streaks.StreakFromYesterday` shows that a habit done only yesterday has a streak of 1.
- `Streaks.StreakSkipsOneGap` and `Streaks.CurrentExceedsLongest` show a current streak of 2
  next to a longest streak of 1.

## Model

| member | source | states |
|---|---|---|
| Text.Trim | projects/habit-tracker/app.js:34 | the result is the input without its leading and trailing whitespace, and no longer than the input |
| Text.Falsy | projects/habit-tracker/server.js:99 | defines `!value` on a string field: missing or empty; `Register`, `CreateHabit` and the origin list use it |
| Text.TrimEmpty | projects/habit-tracker/app.js:34-36 | a name trims to empty exactly when it is all whitespace, the case `addHabit` refuses |
| Text.TrimIdempotent | projects/habit-tracker/server.js:203-211 | trimming a trimmed name changes nothing |
| Text.Dec | projects/habit-tracker/app-backend.js:403-405 | the decimal text of a number is non-empty digits, without a leading zero from 10 on |
| Text.IntText | projects/habit-tracker/app-backend.js:403 | defines `String(n)` for any integer: a minus sign before the digits of a negative one; `Text.JsNumberOfDec` reads it back |
| Text.Pad2 | projects/habit-tracker/app-backend.js:404-405 | two digits for a month or day below 100, never fewer than two |
| Text.Pad2Value | projects/habit-tracker/app-backend.js:404-405 | `padStart(2, '0')` on a month or day keeps its numeric value |
| Text.JsNumber | projects/habit-tracker/app-backend.js:415 | defines `Number()` on the integer texts the tracker writes; None stands for NaN; `Text.JsNumberOfDec` and `Text.JsNumberOfPad2` are its round trips |
| Text.JsNumberOfDec | projects/habit-tracker/app-backend.js:415 | `Number()` of the decimal text of n is n |
| Text.JsNumberOfPad2 | projects/habit-tracker/app-backend.js:415 | `Number()` of a zero-padded month or day is its value |
| Text.Split | projects/habit-tracker/app-backend.js:415 | `split` yields at least one part, and no part holds the separator |
| Text.Join | projects/habit-tracker/app-backend.js:402-406 | defines `parts.join(sep)`; `Text.SplitJoin` and `Text.JoinSplit` make it the inverse of `Split` |
| Text.SplitJoin | projects/habit-tracker/app-backend.js:400-415 | splitting the joined parts at a separator they lack gives back the parts |
| Text.JoinSplit | projects/habit-tracker/server.js:20-21 | joining the split parts with the separator gives back the string |
| Seqs.IndexOf | projects/habit-tracker/app.js:66 | the first position holding the element, and None (JavaScript's -1) exactly when it is absent |
| Seqs.RemoveAt | projects/habit-tracker/server.js:239 | `splice(i, 1)` drops position i and keeps every other element in its order |
| Seqs.RemoveAll | projects/habit-tracker/app-backend.js:368 | every copy of the element is dropped and every other element kept, as a multiset; no change when it is absent |
| Dates.CivilFromDays | projects/habit-tracker/app-backend.js:400-407 | the year, month and day of a day form a valid date whose day number is that day |
| Dates.CivilRoundTrip | projects/habit-tracker/app-backend.js:414-417 | a valid date converts to a day number and back unchanged |
| Dates.DaysFromCivilInjective | projects/habit-tracker/app-backend.js:414-417 | two valid dates with the same day number are the same date |
| Dates.MakeDay | projects/habit-tracker/app-backend.js:401-416 | defines `new Date(y, m, d)` as a day number, a year from 0 to 99 read as 1900 + y and month and day carried over; its lemmas follow |
| Dates.MakeDayOfValid | projects/habit-tracker/app-backend.js:416 | `new Date(year, month - 1, day)` of a valid date is that date's day for a year outside 0 to 99, and the day of the same date in 1900 + year inside them when that date exists |
| Dates.ShortYearLeap | projects/habit-tracker/app-backend.js:401 | a year from 1 to 99 and the same year plus 1900 are both leap years or both not |
| Dates.MakeDayOfShortYear | projects/habit-tracker/app-backend.js:401-416 | a valid date of the years 0 to 99 other than 0000-02-29 is read as the same date in 1900 + year |
| Dates.MakeDayOfLeapDayZero | projects/habit-tracker/app-backend.js:401-416 | 0000-02-29 is read as 1900-03-01, since 1900 is not a leap year |
| Dates.RebuiltDate | projects/habit-tracker/app-backend.js:401 | defines the date `new Date(getFullYear(), getMonth(), getDate())` rebuilds; `Dates.RebuiltDateIsMakeDay` ties it to `MakeDay` |
| Dates.RebuiltDateIsMakeDay | projects/habit-tracker/app-backend.js:401 | the rebuilt date is valid and is the date of `new Date` applied to the day's own year, month index and day |
| Dates.DateString | projects/habit-tracker/app-backend.js:400-407 | defines `getDateString`: the rebuilt date's year, padded month and padded day joined by `-`; see the round trip and injectivity lemmas below |
| Dates.WeekLabel | projects/habit-tracker/app-backend.js:421-424 | defines `formatWeekLabel`: the short month name and the day of the month |
| Dates.Weekday | projects/habit-tracker/app-backend.js:430 | `getDay()` is 0 to 6, and is 1 (Monday) exactly on the days a multiple of 7 from a known Monday |
| Dates.WeekdayNext | projects/habit-tracker/app-backend.js:430 | the weekday of the next day is one more, modulo 7 |
| Dates.SplitCivilText | projects/habit-tracker/app-backend.js:400-415 | splitting a `YYYY-MM-DD` string at `-` gives its year, month and day texts |
| Dates.DateFields | projects/habit-tracker/app-backend.js:415 | defines the destructuring of `split('-').map(Number)`: the first three parts as numbers, None when one is missing or NaN |
| Dates.FormatDate | projects/habit-tracker/app-backend.js:414-419 | defines `formatDate`: the label of `new Date` on the parsed fields; `Dates.FormatDateOfDateString` gives its value on date strings |
| Dates.DateStringRoundTrip | projects/habit-tracker/app-backend.js:400-416 | from the year 0 on, parsing `getDateString(d)` gives the fields of the rebuilt date, and from the year 100 on those are the fields of d |
| Dates.FormatDateOfDateString | projects/habit-tracker/app-backend.js:414-424 | from the year 0 on, `formatDate(getDateString(d))` is the `formatWeekLabel` label of d, except that 0000-02-29 is labelled `Mar 1` |
| Dates.FormatDateOfLeapDayZero | projects/habit-tracker/app-backend.js:400-419 | the date string of 0000-02-29 is labelled `Mar 1` |
| Dates.FormatDateOfRebuilt | projects/habit-tracker/app-backend.js:414-419 | from the year 0 on, `formatDate(getDateString(d))` is the month name and day of the rebuilt date |
| Dates.DateStringInjective | projects/habit-tracker/app-backend.js:400-407 | two days have the same date string exactly when their rebuilt dates agree; outside the years 0 to 99, exactly when they are the same day |
| Dates.ShortYearCollides | projects/habit-tracker/app-backend.js:400-407 | a date of the years 0 to 99 and the same date 1900 years later are different days with the same date string |
| Streaks.CurrentStreak | projects/habit-tracker/app-backend.js:472-493 | the loop's result is the walk back from today that passes over a single missing day |
| Streaks.Walk | projects/habit-tracker/app-backend.js:479-490 | defines the walk back from today that steps over one missing day and stops at two in a row; `Streaks.CurrentStreak` computes it and `Streaks.WalkCountsSinceGap` characterises it |
| Streaks.WalkCountsSinceGap | projects/habit-tracker/app-backend.js:479-490 | the streak is the number of completed days after the latest two missing days in a row |
| Streaks.StreakZero | projects/habit-tracker/app-backend.js:472-493 | the streak is 0 exactly when neither today nor yesterday is completed |
| Streaks.StreakBound | projects/habit-tracker/app.js:121-147 | the streak is at most the number of distinct completed days up to today |
| Streaks.StreakCountsRun | projects/habit-tracker/app.js:121-147 | k completed days in a row ending today give a streak of at least k |
| Streaks.StreakOfThreeDays | projects/habit-tracker/app.js:132-144 | today, yesterday and the day before give a streak of 3 |
| Streaks.StreakFromYesterday | projects/habit-tracker/app-backend.js:479-490 | yesterday alone gives a streak of 1 |
| Streaks.StreakSkipsOneGap | projects/habit-tracker/app-backend.js:479-490 | today and the day before yesterday give a streak of 2 |
| Streaks.SortAscending | projects/habit-tracker/app-backend.js:497-500 | the sorted dates are ascending and a permutation of the input |
| Streaks.LongestStreak | projects/habit-tracker/app-backend.js:495-517 | 0 without dates; otherwise between 1 and the number of dates, and the longest run of consecutive days in the sorted dates |
| Streaks.LongestRunLength | projects/habit-tracker/app.js:155-170 | the loop's maximum is the length of the longest run of consecutive days |
| Streaks.LongestOfThreeDays | projects/habit-tracker/app-backend.js:495-517 | days a, a+1, a+3 have a longest streak of 2 |
| Streaks.CurrentExceedsLongest | projects/habit-tracker/app-backend.js:472-517 | with today and the day before yesterday, the current streak is 2 and the longest is 1 |
| Streaks.Recent | projects/habit-tracker/app-backend.js:462-465 | exactly the completed days from the start of the 30-day window on are kept, with their multiplicity |
| Streaks.CompletionRate | projects/habit-tracker/app-backend.js:466 | the rate is the percentage of 30 days, rounded to the nearest integer |
| Streaks.RateAtMostHundred | projects/habit-tracker/app-backend.js:466 | the rate is at most 100 exactly when at most 30 days are recent |
| Streaks.CalculateStats | projects/habit-tracker/app-backend.js:457-470 | total, current streak, longest streak and rate as above; all zero without dates |
| Views.Cell | projects/habit-tracker/app-backend.js:525-534 | defines a calendar cell: its date string, completion, day of the month and label; `Views.CalendarLabel` gives the label |
| Views.GenerateCalendar | projects/habit-tracker/app-backend.js:519-541 | one cell for each of the last `days` days, oldest first, each with its date string, completion, day of month and label; only the last one is today |
| Views.BackendCalendar | projects/habit-tracker/app-backend.js:519-541 | 30 cells ending today, none in the future, completed exactly on completed days, only the last one today |
| Views.LocalCalendar | projects/habit-tracker/app.js:173-195 | the same for 90 cells |
| Views.CalendarLabel | projects/habit-tracker/app-backend.js:525-534 | from the year 0 on, a cell's label is the month and day of its own date, except that 0000-02-29 is labelled `Mar 1` |
| Views.DayName | projects/habit-tracker/app-backend.js:435 | defines `dayNames[i]`: Monday first |
| Views.MondayOffset | projects/habit-tracker/app-backend.js:430-431 | the offset is between -6 and 0, and it lands on a Monday |
| Views.WeekStart | projects/habit-tracker/app-backend.js:428-432 | the week starts on the Monday on or before today, at most 6 days back |
| Views.Entry | projects/habit-tracker/app-backend.js:438-448 | defines the week entry of the i-th day, with `isToday` taken on the rebuilt dates; `Views.EntryIsToday` ties that to the string comparison and `Views.CurrentWeekEntries` states the fields |
| Views.EntryIsToday | projects/habit-tracker/app-backend.js:446 | an entry is today exactly when its date string equals today's date string, which is when the rebuilt dates agree; outside the years 0 to 99, exactly on today |
| Views.CurrentWeek | projects/habit-tracker/app-backend.js:426-455 | seven entries from the Monday on or before today, and the week ends six days after it starts |
| Views.WeekDays | projects/habit-tracker/app-backend.js:436-449 | entry k is built for the k-th day from the start of the week |
| Views.CurrentWeekEntries | projects/habit-tracker/app-backend.js:438-448 | entry k has the k-th day name and its date string; from the year 0 on, and 0000-02-29 aside, its label is the `formatWeekLabel` label of its day; it is in the future exactly when its day is, and is today exactly when its date string is today's, that is when its rebuilt date is today's (outside the years 0 to 99, when its day is today) |
| Views.OneTodayInWeek | projects/habit-tracker/app-backend.js:446 | today's own entry is marked as today, and outside the years 0 to 99 no other entry is |
| LocalTracker.FindHabit | projects/habit-tracker/app.js:63 | the first habit with the id, or none exactly when no habit has it |
| LocalTracker.WithoutHabit | projects/habit-tracker/app.js:56 | keeps exactly the habits with another id; no change when none has the id |
| LocalTracker.WithoutHabitConcat | projects/habit-tracker/app.js:56 | the filter works list by list |
| LocalTracker.ToggleDay | projects/habit-tracker/app.js:66-71 | an absent day is appended; a present day loses its first occurrence |
| LocalTracker.ToggleDayFlips | projects/habit-tracker/app.js:66-71 | on distinct dates the day's membership flips and the dates stay distinct |
| LocalTracker.ToggleDayTwiceAbsent | projects/habit-tracker/app.js:66-71 | toggling an absent day twice restores the list |
| LocalTracker.ToggleDayTwice | projects/habit-tracker/app.js:66-71 | toggling twice restores membership and the multiset of dates |
| LocalTracker.MarkDay | projects/habit-tracker/app.js:83-86 | today becomes completed, nothing else is added or lost, no change if already there, and otherwise exactly one copy of today is added |
| LocalTracker.MarkDayIdempotent | projects/habit-tracker/app.js:77-88 | marking today twice is marking it once, and keeps dates distinct |
| LocalTracker.ToggleIn | projects/habit-tracker/app.js:62-75 | only the first habit with the id is toggled; an unknown id changes nothing |
| LocalTracker.MarkIn | projects/habit-tracker/app.js:77-88 | only the first habit with the id gets today; an unknown id changes nothing |
| LocalTracker.ToggleInKeepsDistinct | projects/habit-tracker/app.js:62-75 | toggling keeps every habit's dates distinct |
| LocalTracker.MarkInKeepsDistinct | projects/habit-tracker/app.js:77-88 | marking today keeps every habit's dates distinct |
| LocalTracker.ToggleInTwice | projects/habit-tracker/app.js:62-75 | toggling the same day twice keeps ids and names and restores every habit's dates as a multiset |
| LocalTracker.MarkInIdempotent | projects/habit-tracker/app.js:77-88 | marking today twice is marking it once |
| LocalTracker.HabitTracker.constructor | projects/habit-tracker/app.js:3-4 | the tracker starts with the stored habits |
| LocalTracker.HabitTracker.AddHabit | projects/habit-tracker/app.js:32-52 | a habit is appended exactly when the trimmed name is non-empty, with the trimmed name, no dates and the given id and time |
| LocalTracker.HabitTracker.DeleteHabit | projects/habit-tracker/app.js:54-60 | after confirmation, the habits with the id are removed |
| LocalTracker.HabitTracker.ToggleDate | projects/habit-tracker/app.js:62-75 | the habits become the toggled list, and distinct dates stay distinct |
| LocalTracker.HabitTracker.MarkToday | projects/habit-tracker/app.js:77-88 | the habits become the marked list, and distinct dates stay distinct |
| BackendClient.FindHabit | projects/habit-tracker/app-backend.js:364 | the first habit whose id is strictly equal, or none exactly when no id is |
| BackendClient.FindTodo | projects/habit-tracker/app-backend.js:183 | the first todo whose id is strictly equal, or none exactly when no id is |
| BackendClient.WithoutHabit | projects/habit-tracker/app-backend.js:339 | keeps exactly the habits with another id; no change when none has the id |
| BackendClient.WithoutHabitConcat | projects/habit-tracker/app-backend.js:339 | the filter works list by list |
| BackendClient.ApplyCompletion | projects/habit-tracker/app-backend.js:365-369 | `completed` appends the day; otherwise every copy of the day is removed and nothing else |
| BackendClient.CompletionIn | projects/habit-tracker/app-backend.js:362-372 | only the first habit with the id takes the server's answer; an unknown id changes nothing |
| BackendClient.FlipTodo | projects/habit-tracker/app-backend.js:197-199 | only the first todo with the id has its `completed` flag flipped |
| BackendClient.FlipTodoTwice | projects/habit-tracker/app-backend.js:182-204 | flipping a todo twice restores the list |
| BackendClient.IdText | projects/habit-tracker/app-backend.js:550 | defines `String(id)`, how `data-habit-id` writes an id |
| BackendClient.DatasetId | projects/habit-tracker/app-backend.js:550 | the id read back from a `data-habit-id` attribute is always a string |
| BackendClient.DatasetIdNeverMatches | projects/habit-tracker/app-backend.js:689-722 | with numeric habit ids, the attribute's string id finds no habit, so a toggle or delete leaves the local list unchanged |
| BackendClient.ParseDatasetId | projects/habit-tracker/app-backend.js:550 | `Number(dataset.habitId)`, the conversion the corrected handlers apply: a numeric id, or None for NaN, which matches no id; `BackendClient.ParseDatasetIdRoundTrip` is its round trip |
| BackendClient.NonNumericTextIsNaN | projects/habit-tracker/app-backend.js:550 | the text "abc" reads as NaN, so the corrected handlers change nothing for it |
| BackendClient.DecimalTextIsNaN | projects/habit-tracker/app-backend.js:550 | the text "1.5" reads as NaN in the model (see "Left out" on `Number()`) |
| BackendClient.ParseDatasetIdRoundTrip | projects/habit-tracker/app-backend.js:550 | converting the attribute of a non-negative numeric id back gives the id |
| BackendClient.ParsedIdFindsHabit | projects/habit-tracker/app-backend.js:689-722 | the converted attribute id finds the first habit with that id |
| BackendClient.BackendTracker.constructor | projects/habit-tracker/app-backend.js:11-17 | the client starts with the given habits and todos |
| BackendClient.BackendTracker.ToggleDate | projects/habit-tracker/app-backend.js:350-377 | on `ok` the habits take the server's answer for the day; otherwise nothing changes; todos never change |
| BackendClient.BackendTracker.MarkToday | projects/habit-tracker/app-backend.js:379-382 | the same toggle for today |
| BackendClient.BackendTracker.DeleteHabit | projects/habit-tracker/app-backend.js:324-348 | after confirmation and `ok`, the habits with the id are removed |
| BackendClient.BackendTracker.ToggleTodo | projects/habit-tracker/app-backend.js:182-204 | a request is sent exactly when the todo exists; on `ok` its flag flips |
| BackendClient.BackendTracker.ClickDate | projects/habit-tracker/app-backend.js:705-721 | the string `dataset.habitId` goes to `toggleDate`, so with numeric habit ids the server's answer leaves the habits as they were |
| BackendClient.BackendTracker.ClickMarkToday | projects/habit-tracker/app-backend.js:689-695 | the same for the mark-today button |
| BackendClient.BackendTracker.ClickDelete | projects/habit-tracker/app-backend.js:697-703 | the string `dataset.habitId` goes to `deleteHabit`, so with numeric habit ids the habits stay as they were |
| BackendClient.BackendTracker.ClickDateParsed | projects/habit-tracker/app-backend.js:705-721 | corrected handler: a day click toggles the habit named by the converted attribute id, and changes nothing when the text reads as NaN |
| BackendClient.BackendTracker.ClickMarkTodayParsed | projects/habit-tracker/app-backend.js:689-695 | corrected handler: the same for the mark-today button |
| BackendClient.BackendTracker.ClickDeleteParsed | projects/habit-tracker/app-backend.js:697-703 | corrected handler: a delete click removes the habit named by the converted attribute id, and nothing when the text reads as NaN |
| JsonStore.ParseInt | projects/habit-tracker/server.js:231 | defines `parseInt(s, 10)`: white space, an optional sign, the leading digits, NaN without a digit; its lemmas follow |
| JsonStore.ParseIntOfDec | projects/habit-tracker/server.js:231 | `parseInt` of the decimal text of n is n |
| JsonStore.ParseIntIgnoresTail | projects/habit-tracker/server.js:231 | `parseInt` stops at the first non-digit after the digits |
| JsonStore.FindOwned | projects/habit-tracker/server.js:233 | the first habit with the id and the user, or none exactly when there is none or the id is NaN |
| JsonStore.FindCompletion | projects/habit-tracker/server.js:256-258 | the first completion of the habit on the date, or none exactly when there is none |
| JsonStore.WithoutCompletionsOf | projects/habit-tracker/server.js:240 | keeps exactly the completions of other habits |
| JsonStore.WithoutCompletionsConcat | projects/habit-tracker/server.js:240 | the filter works list by list |
| JsonStore.DatesOf | projects/habit-tracker/server.js:187-189 | a date is listed for a habit exactly when that pair is stored |
| JsonStore.DatesOfConcat | projects/habit-tracker/server.js:187-189 | the date list works list by list |
| JsonStore.OwnedBy | projects/habit-tracker/server.js:184 | keeps exactly the user's habits, and no more habits than there are |
| JsonStore.OwnedByConcat | projects/habit-tracker/server.js:184 | the filter works list by list, so the user's habits keep their stored order |
| JsonStore.OwnedByPush | projects/habit-tracker/server.js:184 | a new habit of the user is appended to the user's list; one of another user leaves it unchanged |
| JsonStore.WithDates | projects/habit-tracker/server.js:186-194 | each habit is paired with its own completed dates, in order |
| JsonStore.ToggleFlag | projects/habit-tracker/server.js:260-272 | `completed` is true exactly when the pair was not stored |
| JsonStore.Toggled | projects/habit-tracker/server.js:246-273 | defines the completions after the toggle route: the found pair spliced out, or a new completion pushed; `JsonStore.TogglePairs`, `JsonStore.ToggleTwice` and `JsonStore.ClientMirrorsToggle` state what it does |
| JsonStore.TogglePairs | projects/habit-tracker/server.js:256-272 | toggling keeps pairs unique and adds or removes exactly the one pair |
| JsonStore.ToggleTwice | projects/habit-tracker/server.js:246-273 | toggling twice restores the stored pairs |
| JsonStore.ClientMirrorsToggle | projects/habit-tracker/server.js:260-272 | the server's new dates for the habit are what the client computes from the `completed` flag |
| JsonStore.ToggleOtherHabits | projects/habit-tracker/server.js:260-272 | toggling leaves the dates of every other habit unchanged |
| JsonStore.WithoutKeepsUnique | projects/habit-tracker/server.js:240 | removing a habit's completions keeps pairs unique |
| JsonStore.CascadeDates | projects/habit-tracker/server.js:239-240 | a deleted habit has no dates left, and other habits keep theirs |
| JsonStore.HabitIdReuse | projects/habit-tracker/server.js:209 | deleting a habit and creating one gives two habits with the same id |
| JsonStore.Store.constructor | projects/habit-tracker/server.js:37-44 | the store starts with the loaded users, habits and completions |
| JsonStore.Store.Register | projects/habit-tracker/server.js:97-136 | 400 for a missing field or a password under 6 characters, 409 for a taken email or username, else 200 with a new user of id length + 1 |
| JsonStore.Store.CreateHabit | projects/habit-tracker/server.js:200-228 | 400 exactly for a missing or blank name; else a habit with id length + 1, the user and the trimmed name is appended |
| JsonStore.Store.DeleteHabit | projects/habit-tracker/server.js:230-244 | 404 when the user owns no habit with the parsed id; else it is removed with all its completions |
| JsonStore.Store.Toggle | projects/habit-tracker/server.js:246-273 | 404 when the user owns no such habit; else the pair is flipped and `completed` says it was absent |
| JsonStore.Store.ListHabits | projects/habit-tracker/server.js:183-198 | the user's habits in stored order, each with the dates of its stored completions, in order, and exactly the stored pairs |
| Origins.Entries | projects/habit-tracker/server.js:20-23 | the trimmed, non-empty entries of the list, and only those |
| Origins.AllowedOrigins | projects/habit-tracker/server.js:20-23 | defines `ALLOWED_ORIGINS` from the setting; `Origins.ConfiguredOrigins` gives its value on a list of clean origins |
| Origins.SafeOrigins | projects/habit-tracker/server.js:24 | never empty, every entry clean; the configured list when it has an entry, and the two defaults when the setting is missing, empty or without an entry |
| Origins.CorsAllows | projects/habit-tracker/server.js:49-56 | defines the `origin` callback's decision: no origin, or one in the list; `Origins.UnsetUsesDefaults` and `Origins.ConfiguredReplacesDefaults` use it |
| Origins.UnsetUsesDefaults | projects/habit-tracker/server.js:19-24 | without a setting the two localhost origins are allowed, and requests without an origin too |
| Origins.EntriesOfClean | projects/habit-tracker/server.js:20-23 | a list of clean entries passes through unchanged |
| Origins.ConfiguredOrigins | projects/habit-tracker/server.js:20-24 | a comma-separated setting of clean origins allows exactly those |
| Origins.ConfiguredReplacesDefaults | projects/habit-tracker/server.js:49-56 | an origin outside a configured list is refused |

## Left out

- Browser and server I/O are not modelled: the DOM, rendering, `fetch`, local storage,
  `saveData`/`loadData` file access, bcrypt hashing and JWT cookies.
- The login, logout and `/api/user` routes, the auth middleware, and the 500 paths are not
  modelled. Callers supply the user id. Error message texts are left out; only status codes are
  modelled.
- Clocks are parameters: `Date.now()` ids, `new Date()` timestamps, today's day number, and the
  start of the 30-day window (`since`).
- Dates are modelled on whole days, with local time and UTC assumed to agree. Time zones,
  daylight saving and the `Math.floor` of millisecond differences are not modelled.
- LocalTracker: the `toISOString` keys of `app.js` are modelled as day numbers. That string
  differs for every day, so `includes` and `indexOf` on it behave as on day numbers. Its text
  is not modelled. It matches the `getDateString` text of `app-backend.js` only for the years
  1000 to 9999: `toISOString` pads the year to four digits and writes `+YYYYYY` or `-YYYYYY`
  outside 0 to 9999.
- Views.LocalCalendar: its cells are built with the date helpers of `app-backend.js`
  (`getDateString`, `formatDate` on `new Date(y, m - 1, d)`). `app.js` writes the date with
  `toISOString` and reads it back with `new Date(dateStr)`, which parses it as UTC. The two
  texts and labels agree for the years 1000 to 9999 when local time is UTC; outside that
  range the 90-day cells' `dateStr` and `displayDate` are not modelled as `app.js` writes them.
- Dates.MakeDay and Dates.DateString: the `Date` range of 100,000,000 days either side of
  1970-01-01 is not modelled. Beyond it the source has an Invalid Date with NaN fields, while
  the model goes on counting days.
- Dates.DateStringRoundTrip, Dates.FormatDateOfDateString and Views.CalendarLabel: years
  before 0 are not covered. Such a date string starts with `-`, so `split('-')` gives an empty
  first part, and `formatDate` reads the wrong fields.
- LocalTracker and BackendClient: in the clients of `app-backend.js`, days of the years 0 to 99
  share their date string with the same date 1900 years later (`Dates.ShortYearCollides`).
  The model keeps completed days as day numbers, so it tells apart two days that the source's
  `includes` and `filter` on strings treat as one.
- JsonStore.Store.Toggle: `date` is taken from `req.body` without a check (server.js:248), so
  in the source it may be missing or a number. The model types it as a string.
- JsonStore.Store.Register and JsonStore.Store.CreateHabit: the `req.body` fields are taken
  without a type check (server.js:97, :201), and the model types them as `Option<string>`,
  a missing field being None. In the source a field of another JSON type behaves otherwise.
  A `name` of `true` passes `!name`, and `name.trim()` at server.js:203 then throws before
  the `try` of server.js:207, so the route sends no response. A numeric `password` has no
  `length`, so the 400 of server.js:104 is skipped and the value goes on to the hashing in
  the `try` block.
- JsonStore.ParseInt and Text.JsNumber: `parseInt` (server.js:231) and `Number()` give
  doubles, which lose precision above 2^53. The model's integers are exact.
- `Number()` and `parseInt` are modelled for the forms the code meets: optional whitespace,
  an optional sign, then digits. A decimal text such as "1.5" reads as NaN (None) in
  `Text.JsNumber`, where `Number()` gives 1.5. Exponents, hex and `Infinity` are not modelled. String
  lengths count characters, not UTF-16 code units.
- app-backend.js:107-136 is a damaged region of the file, and it is not modelled. The client's
  `addHabit`, `addTodo`, `deleteTodo` and `loadHabits` requests are not modelled either.
- The MongoDB and PostgreSQL servers, the database scripts, `config.js` and the PHP contact
  form are not part of this model.
- Concurrency is not modelled. Each async call is modelled as finishing before the next one
  starts.
- JsonStore.Store.CreateHabit: ids are `length + 1`, so they are not unique after a delete.
  The model claims no uniqueness, and `JsonStore.HabitIdReuse` shows the clash. The same
  holds for `Register` and for completion ids.
- BackendClient.ParseDatasetIdRoundTrip: it covers non-negative ids only. The negative case
  is not proved.
- Streaks.LongestStreak: the sort is `Streaks.SortAscending`, an insertion sort on values.
  The loop is `Streaks.LongestRunLength`.

## Findings

| source | as written | input that shows it | evidently intended | confidence | as-written member | corrected member |
|---|---|---|---|---|---|---|
| projects/habit-tracker/app-backend.js:689-722 | the click handlers pass `dataset.habitId`, a string, to `toggleDate`/`deleteHabit`, which find habits by `===` against numeric ids (lines 338-340, 362-364) | a habit with id 1: its attribute reads back as the string "1", no habit matches, and the local list is not updated after the server succeeds | convert the attribute back to the habit's number before comparing | not executed | BackendClient.DatasetIdNeverMatches, BackendClient.BackendTracker.ClickDate, BackendClient.BackendTracker.ClickMarkToday, BackendClient.BackendTracker.ClickDelete | BackendClient.ParsedIdFindsHabit, BackendClient.BackendTracker.ClickDateParsed, BackendClient.BackendTracker.ClickMarkTodayParsed, BackendClient.BackendTracker.ClickDeleteParsed |
