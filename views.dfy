/**
 * The two date views of the clients: the calendar strip of the last N days
 * (`generateCalendar`) and the Monday-first current week (`getCurrentWeek`).
 */
module Views {
  import opened Dates

  /** One cell of the calendar strip. `date` is the cell's day. */
  datatype CalendarDay = CalendarDay(
    date: Day,
    dateStr: string,
    isCompleted: bool,
    isToday: bool,
    isFuture: bool,
    dayOfMonth: int,
    displayDate: string)

  /** The cell `generateCalendar` builds for `date`. */
  function Cell(dates: seq<Day>, date: Day, isToday: bool): CalendarDay
  {
    var dateStr := DateString(date);
    CalendarDay(date, dateStr, date in dates, isToday, false, CivilFromDays(date).day, FormatDate(dateStr))
  }

  /**
   * `generateCalendar(habit)` with `days` cells: the days from `today - (days - 1)` up to
   * `today`, oldest first, only the last one marked as today.
   */
  method GenerateCalendar(dates: seq<Day>, today: Day, days: nat) returns (calendar: seq<CalendarDay>)
    ensures |calendar| == days
    ensures forall k | 0 <= k < days :: calendar[k] == Cell(dates, today - (days - 1) + k, k == days - 1)
  {
    calendar := [];
    for i := days downto 0
      invariant |calendar| == days - i
      invariant forall k | 0 <= k < |calendar| :: calendar[k].date == today - (days - 1) + k && (calendar[k].isToday <==> k == days - 1)
      invariant forall k | 0 <= k < |calendar| :: calendar[k] == Cell(dates, calendar[k].date, calendar[k].isToday)
    {
      var date := today - i;
      var dateStr := DateString(date);
      calendar := calendar + [CalendarDay(date, dateStr, date in dates, i == 0, false, CivilFromDays(date).day, FormatDate(dateStr))];
    }
  }

  /** The 30-day calendar of app-backend.js. */
  method BackendCalendar(dates: seq<Day>, today: Day) returns (calendar: seq<CalendarDay>)
    ensures |calendar| == 30 && calendar[29].date == today && calendar[29].isToday
    ensures forall k | 0 <= k < 30 :: calendar[k].date == today - 29 + k && !calendar[k].isFuture
    ensures forall k | 0 <= k < 30 :: calendar[k].isCompleted <==> today - 29 + k in dates
    ensures forall k | 0 <= k < 29 :: !calendar[k].isToday
  {
    calendar := GenerateCalendar(dates, today, 30);
    forall k | 0 <= k < 30
      ensures calendar[k].date == today - 29 + k && !calendar[k].isFuture
      ensures calendar[k].isCompleted <==> today - 29 + k in dates
      ensures calendar[k].isToday <==> k == 29
    {
    }
  }

  /** The 90-day calendar of app.js. */
  method LocalCalendar(dates: seq<Day>, today: Day) returns (calendar: seq<CalendarDay>)
    ensures |calendar| == 90 && calendar[89].date == today && calendar[89].isToday
    ensures forall k | 0 <= k < 90 :: calendar[k].date == today - 89 + k && !calendar[k].isFuture
    ensures forall k | 0 <= k < 90 :: calendar[k].isCompleted <==> today - 89 + k in dates
    ensures forall k | 0 <= k < 89 :: !calendar[k].isToday
  {
    calendar := GenerateCalendar(dates, today, 90);
    forall k | 0 <= k < 90
      ensures calendar[k].date == today - 89 + k && !calendar[k].isFuture
      ensures calendar[k].isCompleted <==> today - 89 + k in dates
      ensures calendar[k].isToday <==> k == 89
    {
    }
  }

  /**
   * A cell's label shows the month and day of its own date, for every date from year 0 on but
   * 0000-02-29, which is labelled as the 1900-03-01 it is rebuilt to.
   */
  lemma CalendarLabel(c: CalendarDay)
    requires c.dateStr == DateString(c.date) && c.displayDate == FormatDate(c.dateStr)
    requires CivilFromDays(c.date).year >= 0
    ensures CivilFromDays(c.date) != CivilDate(0, 2, 29) ==> c.displayDate == WeekLabel(c.date)
    ensures CivilFromDays(c.date) == CivilDate(0, 2, 29) ==> c.displayDate == "Mar 1"
  {
    FormatDateOfDateString(c.date);
  }

  // ----- the current week -----

  /** `dayNames[i]` of `getCurrentWeek`: the weeks start on Monday. */
  function DayName(i: nat): string
    requires i < 7
  {
    if i == 0 then "Mon" else if i == 1 then "Tue" else if i == 2 then "Wed"
    else if i == 3 then "Thu" else if i == 4 then "Fri" else if i == 5 then "Sat" else "Sun"
  }

  /** One entry of the week; `dayName` is the entry's `label` (a reserved word in Dafny). */
  datatype WeekDay = WeekDay(dayName: string, dateStr: string, display: string, isToday: bool, isFuture: bool)

  datatype Week = Week(days: seq<WeekDay>, startOfWeek: Day, endOfWeek: Day)

  /** The offset from a day back to the Monday of its week, as `getCurrentWeek` computes it. */
  function MondayOffset(weekday: int): (diff: int)
    requires 0 <= weekday < 7
    ensures -6 <= diff <= 0
    ensures (weekday + diff) % 7 == 1
  {
    if weekday == 0 then -6 else 1 - weekday
  }

  /**
   * The entry `getCurrentWeek` builds for the i-th day, `current`, of the week of `today`.
   * `isToday` compares the two rebuilt dates, which is comparing their `getDateString` texts
   * (`EntryIsToday`).
   */
  function Entry(i: nat, current: Day, today: Day): WeekDay
    requires i < 7
  {
    var dateStr := DateString(current);
    WeekDay(DayName(i), dateStr, FormatDate(dateStr), RebuiltDate(current) == RebuiltDate(today), current > today)
  }

  /** `startOfWeek` of `getCurrentWeek`: the Monday on or before `today`. */
  function WeekStart(today: Day): (start: Day)
    ensures today - 6 <= start <= today && Weekday(start) == 1
  {
    var w := Weekday(today);
    var start := today + MondayOffset(w);
    assert (start - MondayAnchor + 1) % 7 == (w + MondayOffset(w)) % 7 == 1;
    start
  }

  /**
   * The string comparison `getCurrentWeek` makes marks the days whose rebuilt date is today's:
   * exactly today, outside the years 0 to 99.
   */
  lemma EntryIsToday(i: nat, current: Day, today: Day)
    requires i < 7
    ensures Entry(i, current, today).isToday <==> DateString(current) == DateString(today)
    ensures Entry(i, current, today).isToday <==> RebuiltDate(current) == RebuiltDate(today)
    ensures PlainDay(current) && PlainDay(today) ==>
      (Entry(i, current, today).isToday <==> current == today)
  {
    DateStringInjective(current, today);
  }

  /** `getCurrentWeek()`: the seven days from the Monday on or before `today`. */
  method CurrentWeek(today: Day) returns (week: Week)
    ensures today - 6 <= week.startOfWeek <= today && Weekday(week.startOfWeek) == 1
    ensures week.endOfWeek == week.startOfWeek + 6
    ensures |week.days| == 7
    ensures forall k | 0 <= k < 7 :: week.days[k] == Entry(k, week.startOfWeek + k, today)
  {
    var startOfWeek := WeekStart(today);
    var days := WeekDays(startOfWeek, today);
    week := Week(days, startOfWeek, startOfWeek + 6);
  }

  /** The loop of `getCurrentWeek`: one entry for each of the seven days from `startOfWeek`. */
  method WeekDays(startOfWeek: Day, today: Day) returns (days: seq<WeekDay>)
    ensures |days| == 7
    ensures forall k | 0 <= k < 7 :: days[k] == Entry(k, startOfWeek + k, today)
  {
    days := [];
    for i := 0 to 7
      invariant |days| == i
      invariant forall k | 0 <= k < i :: days[k] == Entry(k, startOfWeek + k, today)
    {
      days := days + [Entry(i, startOfWeek + i, today)];
    }
  }

  /** The entries of the current week: their names, dates, labels and flags. */
  lemma CurrentWeekEntries(today: Day, week: Week, k: nat)
    requires |week.days| == 7 && 0 <= k < 7
    requires week.days[k] == Entry(k, week.startOfWeek + k, today)
    ensures week.days[k].dayName == DayName(k)
    ensures week.days[k].dateStr == DateString(week.startOfWeek + k)
    ensures week.days[k].display == FormatDate(week.days[k].dateStr)
    ensures var c := CivilFromDays(week.startOfWeek + k);
      c.year >= 0 && c != CivilDate(0, 2, 29) ==> week.days[k].display == WeekLabel(week.startOfWeek + k)
    ensures week.days[k].isToday <==> week.days[k].dateStr == DateString(today)
    ensures week.days[k].isToday <==> RebuiltDate(week.startOfWeek + k) == RebuiltDate(today)
    ensures PlainDay(week.startOfWeek + k) && PlainDay(today) ==>
      (week.days[k].isToday <==> week.startOfWeek + k == today)
    ensures week.days[k].isFuture <==> week.startOfWeek + k > today
  {
    EntryIsToday(k, week.startOfWeek + k, today);
    if CivilFromDays(week.startOfWeek + k).year >= 0 {
      FormatDateOfDateString(week.startOfWeek + k);
    }
  }

  /**
   * The entry of today's own day is marked as today, and, outside the years 0 to 99, it is
   * the only one.
   */
  lemma OneTodayInWeek(today: Day, week: Week)
    requires today - 6 <= week.startOfWeek <= today && |week.days| == 7
    requires forall j | 0 <= j < 7 :: week.days[j] == Entry(j, week.startOfWeek + j, today)
    ensures week.days[today - week.startOfWeek].isToday
    ensures (forall d | week.startOfWeek <= d < week.startOfWeek + 7 :: PlainDay(d)) ==>
      forall j | 0 <= j < 7 && j != today - week.startOfWeek :: !week.days[j].isToday
  {
    forall j | 0 <= j < 7
      ensures PlainDay(week.startOfWeek + j) && PlainDay(today) ==>
        (week.days[j].isToday <==> week.startOfWeek + j == today)
    {
      EntryIsToday(j, week.startOfWeek + j, today);
    }
  }
}
