/**
 * Calendar dates of the habit tracker. A date is a day number (`Day`, 0 is 1970-01-01 in
 * the local calendar); JavaScript's `Date` fields are recovered from it by walking the
 * proleptic Gregorian calendar. `getDateString`, `formatDate`, `formatWeekLabel` and
 * `getDay` are defined on top of that.
 */
module Dates {
  import opened Wrappers
  import opened Text

  /** A local calendar day, counted from 1970-01-01. */
  type Day = int

  /** The `getFullYear()`, `getMonth() + 1` and `getDate()` fields of a local date. */
  datatype CivilDate = CivilDate(year: int, month: int, day: int)

  predicate IsLeapYear(y: int)
  {
    y % 4 == 0 && (y % 100 != 0 || y % 400 == 0)
  }

  function DaysInYear(y: int): int
  {
    if IsLeapYear(y) then 366 else 365
  }

  function DaysInMonth(y: int, m: int): int
    requires 1 <= m <= 12
  {
    if m == 2 then (if IsLeapYear(y) then 29 else 28)
    else if m == 4 || m == 6 || m == 9 || m == 11 then 30
    else 31
  }

  predicate ValidDate(c: CivilDate)
  {
    1 <= c.month <= 12 && 1 <= c.day <= DaysInMonth(c.year, c.month)
  }

  /** Days of year `y` before the first of month `m`. */
  function DaysBeforeMonth(y: int, m: int): int
    requires 1 <= m <= 12
  {
    [0, 31, 59, 90, 120, 151, 181, 212, 243, 273, 304, 334][m - 1]
    + (if m > 2 && IsLeapYear(y) then 1 else 0)
  }

  lemma DaysBeforeMonthStep(y: int, m: int)
    requires 1 <= m < 12
    ensures DaysBeforeMonth(y, m + 1) == DaysBeforeMonth(y, m) + DaysInMonth(y, m)
  {
  }

  lemma DaysBeforeMonthBound(y: int, m: int)
    requires 1 <= m <= 12
    ensures 0 <= DaysBeforeMonth(y, m)
    ensures DaysBeforeMonth(y, m) + DaysInMonth(y, m) <= DaysInYear(y)
    ensures m == 12 ==> DaysBeforeMonth(y, m) + DaysInMonth(y, m) == DaysInYear(y)
  {
  }

  /** The day number of January 1st of year `y` (negative before 1970). */
  function DaysBeforeYear(y: int): int
    decreases if y >= 1970 then y - 1970 else 1970 - y
  {
    if y == 1970 then 0
    else if y > 1970 then DaysBeforeYear(y - 1) + DaysInYear(y - 1)
    else DaysBeforeYear(y + 1) - DaysInYear(y)
  }

  lemma DaysBeforeYearStep(y: int)
    ensures DaysBeforeYear(y + 1) == DaysBeforeYear(y) + DaysInYear(y)
  {
  }

  /** January 1st of a later year has a day number at least a year larger. */
  lemma {:induction false} DaysBeforeYearGrows(y: int, y2: int)
    requires y < y2
    ensures DaysBeforeYear(y2) >= DaysBeforeYear(y) + DaysInYear(y)
    decreases y2 - y
  {
    DaysBeforeYearStep(y);
    if y + 1 < y2 {
      DaysBeforeYearGrows(y + 1, y2);
    }
  }

  /** The day number of a calendar date: JavaScript's `MakeDay` for an in-range date. */
  function DaysFromCivil(c: CivilDate): Day
    requires ValidDate(c)
  {
    DaysBeforeYear(c.year) + DaysBeforeMonth(c.year, c.month) + c.day - 1
  }

  /** The date `z` days after the first of month `m` of year `y`. */
  function MonthWalk(y: int, m: int, z: int): (c: CivilDate)
    requires 1 <= m <= 12 && 0 <= z && DaysBeforeMonth(y, m) + z < DaysInYear(y)
    ensures ValidDate(c) && c.year == y && m <= c.month
    ensures DaysFromCivil(c) == DaysBeforeYear(y) + DaysBeforeMonth(y, m) + z
    decreases 12 - m
  {
    DaysBeforeMonthBound(y, m);
    if m < 12 && z >= DaysInMonth(y, m) then
      DaysBeforeMonthStep(y, m);
      MonthWalk(y, m + 1, z - DaysInMonth(y, m))
    else
      CivilDate(y, m, z + 1)
  }

  /** The date `z` days after January 1st of year `y` (`z` may be negative). */
  function YearWalk(y: int, z: int): (c: CivilDate)
    ensures ValidDate(c) && DaysFromCivil(c) == DaysBeforeYear(y) + z
    decreases (if z < 0 then 1 else 0), (if z < 0 then -z else z)
  {
    if z < 0 then
      DaysBeforeYearStep(y - 1);
      YearWalk(y - 1, z + DaysInYear(y - 1))
    else if z >= DaysInYear(y) then
      DaysBeforeYearStep(y);
      YearWalk(y + 1, z - DaysInYear(y))
    else
      MonthWalk(y, 1, z)
  }

  /** The local calendar fields of day `z`. */
  function CivilFromDays(z: Day): (c: CivilDate)
    ensures ValidDate(c) && DaysFromCivil(c) == z
  {
    YearWalk(1970, z)
  }

  /** A later month of the same year starts after the earlier month has ended. */
  lemma {:induction false} DaysBeforeMonthGrows(y: int, m: int, m2: int)
    requires 1 <= m < m2 <= 12
    ensures DaysBeforeMonth(y, m) + DaysInMonth(y, m) <= DaysBeforeMonth(y, m2)
    decreases m2 - m
  {
    DaysBeforeMonthStep(y, m);
    if m + 1 < m2 {
      DaysBeforeMonthGrows(y, m + 1, m2);
    }
  }

  lemma DaysFromCivilInYear(c: CivilDate)
    requires ValidDate(c)
    ensures DaysBeforeYear(c.year) <= DaysFromCivil(c) < DaysBeforeYear(c.year) + DaysInYear(c.year)
  {
    DaysBeforeMonthBound(c.year, c.month);
  }

  /** Distinct valid dates have distinct day numbers. */
  lemma DaysFromCivilInjective(a: CivilDate, b: CivilDate)
    requires ValidDate(a) && ValidDate(b) && DaysFromCivil(a) == DaysFromCivil(b)
    ensures a == b
  {
    DaysFromCivilInYear(a);
    DaysFromCivilInYear(b);
    if a.year < b.year {
      DaysBeforeYearGrows(a.year, b.year);
    } else if b.year < a.year {
      DaysBeforeYearGrows(b.year, a.year);
    } else if a.month < b.month {
      DaysBeforeMonthGrows(a.year, a.month, b.month);
    } else if b.month < a.month {
      DaysBeforeMonthGrows(a.year, b.month, a.month);
    }
  }

  /** Day numbers and valid calendar dates are in one-to-one correspondence. */
  lemma CivilRoundTrip(c: CivilDate)
    requires ValidDate(c)
    ensures CivilFromDays(DaysFromCivil(c)) == c
  {
    DaysFromCivilInjective(CivilFromDays(DaysFromCivil(c)), c);
  }

  /** The years the `Date` constructor takes as they are: all but 0 to 99. */
  predicate PlainYear(y: int)
  {
    y < 0 || 100 <= y
  }

  /** A day of such a year. */
  predicate PlainDay(z: Day)
  {
    PlainYear(CivilFromDays(z).year)
  }

  /**
   * `new Date(y, m0, d)` as a day number. A year from 0 to 99 is read as 1900 + y; the month
   * index `m0` (January is 0) and the day may lie outside their ranges and carry into the
   * year and month, as in ECMAScript's MakeDay.
   */
  function MakeDay(y: int, m0: int, d: int): Day
  {
    var year := if PlainYear(y) then y else 1900 + y;
    DaysFromCivil(CivilDate(year + m0 / 12, m0 % 12 + 1, 1)) + d - 1
  }

  /**
   * For a valid date `MakeDay` is the date's own day number, except that a date of the years
   * 0 to 99 is taken to the same month and day 1900 years later.
   */
  lemma MakeDayOfValid(c: CivilDate)
    requires ValidDate(c)
    ensures PlainYear(c.year) ==> MakeDay(c.year, c.month - 1, c.day) == DaysFromCivil(c)
    ensures !PlainYear(c.year) && ValidDate(CivilDate(c.year + 1900, c.month, c.day)) ==>
      MakeDay(c.year, c.month - 1, c.day) == DaysFromCivil(CivilDate(c.year + 1900, c.month, c.day))
  {
  }

  /** The years 1 to 99 have leap days exactly where the years 1901 to 1999 have them. */
  lemma ShortYearLeap(y: int)
    requires 1 <= y <= 99
    ensures IsLeapYear(y + 1900) == IsLeapYear(y)
  {
    assert (y + 1900) % 4 == y % 4;
    assert (y + 1900) % 100 == y;
  }

  /** A valid date of the years 0 to 99 but 0000-02-29 is made into the same date 1900 years later. */
  lemma MakeDayOfShortYear(c: CivilDate)
    requires ValidDate(c) && !PlainYear(c.year) && c != CivilDate(0, 2, 29)
    ensures ValidDate(CivilDate(c.year + 1900, c.month, c.day))
    ensures MakeDay(c.year, c.month - 1, c.day) == DaysFromCivil(CivilDate(c.year + 1900, c.month, c.day))
  {
    if c.year != 0 {
      ShortYearLeap(c.year);
    }
    MakeDayOfValid(c);
  }

  /** 0000-02-29 is made into 1900-03-01. */
  lemma MakeDayOfLeapDayZero()
    ensures MakeDay(0, 1, 29) == DaysFromCivil(CivilDate(1900, 3, 1))
  {
    assert MakeDay(0, 1, 29) == DaysFromCivil(CivilDate(1900, 2, 1)) + 28;
  }

  /**
   * The local fields of `new Date(d.getFullYear(), d.getMonth(), d.getDate())` for the day `z`
   * of a `Date` `d`: those of `z` itself, except that a date of the years 0 to 99 moves 1900
   * years on, where 0000-02-29 becomes 1900-03-01 as 1900 has no leap day.
   */
  function RebuiltDate(z: Day): CivilDate
  {
    var c := CivilFromDays(z);
    if PlainYear(c.year) then c
    else if c == CivilDate(0, 2, 29) then CivilDate(1900, 3, 1)
    else CivilDate(c.year + 1900, c.month, c.day)
  }

  /** `RebuiltDate` is the date of the day `MakeDay` builds from the fields of `z`. */
  lemma RebuiltDateIsMakeDay(z: Day)
    ensures ValidDate(RebuiltDate(z))
    ensures var c := CivilFromDays(z); RebuiltDate(z) == CivilFromDays(MakeDay(c.year, c.month - 1, c.day))
  {
    var c := CivilFromDays(z);
    if PlainYear(c.year) {
      MakeDayOfValid(c);
    } else if c == CivilDate(0, 2, 29) {
      MakeDayOfLeapDayZero();
      CivilRoundTrip(CivilDate(1900, 3, 1));
    } else {
      MakeDayOfShortYear(c);
      CivilRoundTrip(CivilDate(c.year + 1900, c.month, c.day));
    }
  }

  // ----- weekdays -----

  /** 1970-01-05 was a Monday. */
  const MondayAnchor: Day := 4

  /** `getDay()`: 0 is Sunday, 1 Monday, ..., 6 Saturday. */
  function Weekday(z: Day): (w: int)
    ensures 0 <= w < 7
    ensures w == 1 <==> (z - MondayAnchor) % 7 == 0
  {
    (z - MondayAnchor + 1) % 7
  }

  /** The weekday advances by one, cyclically, from one day to the next. */
  lemma WeekdayNext(z: Day)
    ensures Weekday(z + 1) == (Weekday(z) + 1) % 7
  {
  }

  // ----- the string forms of a date -----

  /** Month and day can be written with `padStart`; every valid date qualifies. */
  predicate PrintableDate(c: CivilDate)
  {
    c.month >= 0 && c.day >= 0
  }

  /** `[y, mm, dd].join('-')`, with month and day padded to two digits. */
  function CivilText(c: CivilDate): (s: string)
    requires PrintableDate(c)
  {
    Join([IntText(c.year), Pad2(c.month), Pad2(c.day)], '-')
  }

  /**
   * `getDateString(date)` of app-backend.js: the date is rebuilt from its local fields with
   * `new Date(year, month, day)`, and the rebuilt date's fields are written `YYYY-MM-DD`.
   */
  function DateString(z: Day): string
  {
    CivilText(RebuiltDate(z))
  }

  const MonthNames: seq<string> :=
    ["Jan", "Feb", "Mar", "Apr", "May", "Jun", "Jul", "Aug", "Sep", "Oct", "Nov", "Dec"]

  /** `formatWeekLabel(date)`: the month's short name and the day of the month, as in `Oct 14`. */
  function WeekLabel(z: Day): string
  {
    var c := CivilFromDays(z);
    MonthNames[c.month - 1] + " " + Dec(c.day)
  }

  /** The label of an invalid `Date`: `months[NaN]` is undefined and `getDate()` is NaN. */
  const InvalidLabel: string := "undefined NaN"

  /** `dateStr.split('-').map(Number)`, destructured into year, month and day; None if any is NaN or missing. */
  function DateFields(s: string): Option<(int, int, int)>
  {
    var parts := Split(s, '-');
    if |parts| < 3 then None
    else match (JsNumber(parts[0]), JsNumber(parts[1]), JsNumber(parts[2]))
      case (Some(y), Some(m), Some(d)) => Some((y, m, d))
      case _ => None
  }

  /** `formatDate(dateStr)` of app-backend.js: parse the fields, build the local date, label it. */
  function FormatDate(s: string): string
  {
    match DateFields(s)
    case Some((y, m, d)) => WeekLabel(MakeDay(y, m - 1, d))
    case None => InvalidLabel
  }

  /** The parts `getDateString` joins, as `split('-')` sees them: a negative year adds an empty first part. */
  function DateParts(c: CivilDate): seq<string>
    requires PrintableDate(c)
  {
    (if c.year >= 0 then [Dec(c.year)] else ["", Dec(-c.year)]) + [Pad2(c.month), Pad2(c.day)]
  }

  lemma DigitsHaveNoDash(s: string)
    requires AllDigits(s)
    ensures '-' !in s
  {
    assert forall k | 0 <= k < |s| :: s[k] != '-';
  }

  /** Splitting a date string on `-` gives the parts it was joined from. */
  lemma SplitCivilText(c: CivilDate)
    requires PrintableDate(c)
    ensures Split(CivilText(c), '-') == DateParts(c)
  {
    var parts := DateParts(c);
    JoinThree(IntText(c.year), Pad2(c.month), Pad2(c.day), '-');
    DigitsHaveNoDash(Dec(if c.year >= 0 then c.year else -c.year));
    DigitsHaveNoDash(Pad2(c.month));
    DigitsHaveNoDash(Pad2(c.day));
    assert forall k | 0 <= k < |parts| :: '-' !in parts[k];
    if c.year >= 0 {
      assert parts == [Dec(c.year), Pad2(c.month), Pad2(c.day)];
      JoinThree(Dec(c.year), Pad2(c.month), Pad2(c.day), '-');
      assert IntText(c.year) == Dec(c.year);
    } else {
      assert parts == ["", Dec(-c.year), Pad2(c.month), Pad2(c.day)];
      JoinFour("", Dec(-c.year), Pad2(c.month), Pad2(c.day), '-');
      assert IntText(c.year) == "-" + Dec(-c.year);
    }
    assert Join(parts, '-') == CivilText(c);
    SplitJoin(parts, '-');
  }

  /**
   * `formatDate`'s split-and-Number step reads back the year, month and day `getDateString`
   * wrote: those of the rebuilt date, which are the date's own from year 100 on.
   */
  lemma DateStringRoundTrip(z: Day)
    requires CivilFromDays(z).year >= 0
    ensures var r := RebuiltDate(z);
      DateFields(DateString(z)) == Some((r.year, r.month, r.day))
    ensures var c := CivilFromDays(z);
      100 <= c.year ==> DateFields(DateString(z)) == Some((c.year, c.month, c.day))
  {
    var r := RebuiltDate(z);
    SplitCivilText(r);
    JsNumberOfDec(r.year);
    JsNumberOfPad2(r.month);
    JsNumberOfPad2(r.day);
  }

  /**
   * Labelling the string of a date gives the week label of that date, for every date from
   * year 0 on but 0000-02-29, which is labelled as the 1900-03-01 it is rebuilt to.
   */
  lemma FormatDateOfDateString(z: Day)
    requires CivilFromDays(z).year >= 0
    ensures CivilFromDays(z) != CivilDate(0, 2, 29) ==> FormatDate(DateString(z)) == WeekLabel(z)
    ensures CivilFromDays(z) == CivilDate(0, 2, 29) ==> FormatDate(DateString(z)) == "Mar 1"
  {
    if CivilFromDays(z) == CivilDate(0, 2, 29) {
      FormatDateOfLeapDayZero(z);
    } else {
      FormatDateOfRebuilt(z);
      var c, r := CivilFromDays(z), RebuiltDate(z);
      assert r.month == c.month && r.day == c.day;
    }
  }

  /** The 29th of February of year 0 has no counterpart in 1900, so `new Date` moves it to the 1st of March. */
  lemma FormatDateOfLeapDayZero(z: Day)
    requires CivilFromDays(z) == CivilDate(0, 2, 29)
    ensures FormatDate(DateString(z)) == "Mar 1"
  {
    FormatDateOfRebuilt(z);
    assert RebuiltDate(z) == CivilDate(1900, 3, 1);
    MarchFirstLabel();
  }

  lemma MarchFirstLabel()
    ensures MonthNames[2] + " " + Dec(1) == "Mar 1"
  {
    assert MonthNames[2] == "Mar" && Dec(1) == "1";
  }

  /** `formatDate(getDateString(d))` is the month and day of the rebuilt date. */
  lemma FormatDateOfRebuilt(z: Day)
    requires CivilFromDays(z).year >= 0
    ensures var r := RebuiltDate(z);
      ValidDate(r) && FormatDate(DateString(z)) == MonthNames[r.month - 1] + " " + Dec(r.day)
  {
    var r := RebuiltDate(z);
    DateStringRoundTrip(z);
    RebuiltDateIsMakeDay(z);
    MakeDayOfValid(r);
    CivilRoundTrip(r);
  }

  /** The parts of a date string determine the date. */
  lemma DatePartsInjective(a: CivilDate, b: CivilDate)
    requires PrintableDate(a) && PrintableDate(b)
    requires DateParts(a) == DateParts(b)
    ensures a == b
  {
    var p, q := DateParts(a), DateParts(b);
    Pad2Value(a.month);
    Pad2Value(b.month);
    Pad2Value(a.day);
    Pad2Value(b.day);
    var k := |p| - 3;
    assert p[k + 1] == Pad2(a.month) && q[k + 1] == Pad2(b.month);
    assert p[k + 2] == Pad2(a.day) && q[k + 2] == Pad2(b.day);
    var ya, yb := if a.year >= 0 then a.year else -a.year, if b.year >= 0 then b.year else -b.year;
    assert (a.year >= 0 <==> b.year >= 0) && p[k] == Dec(ya) && q[k] == Dec(yb);
    DigitsValueOfDec(ya);
    DigitsValueOfDec(yb);
  }

  /**
   * Two days have the same date string exactly when they have the same rebuilt date; for days
   * outside the years 0 to 99 that is exactly when they are the same day, so comparing the
   * strings is comparing the days.
   */
  lemma DateStringInjective(a: Day, b: Day)
    ensures DateString(a) == DateString(b) <==> RebuiltDate(a) == RebuiltDate(b)
    ensures PlainDay(a) && PlainDay(b) ==> (DateString(a) == DateString(b) <==> a == b)
  {
    if DateString(a) == DateString(b) {
      var ca, cb := RebuiltDate(a), RebuiltDate(b);
      SplitCivilText(ca);
      SplitCivilText(cb);
      DatePartsInjective(ca, cb);
    }
  }

  /**
   * A day of the years 0 to 99 gets the date string of the day with the same month and day
   * 1900 years later, although the two are different days.
   */
  lemma ShortYearCollides(c: CivilDate)
    requires ValidDate(c) && 0 <= c.year <= 99 && c != CivilDate(0, 2, 29)
    ensures var later := CivilDate(c.year + 1900, c.month, c.day);
      ValidDate(later) && DaysFromCivil(c) != DaysFromCivil(later) &&
      DateString(DaysFromCivil(c)) == DateString(DaysFromCivil(later))
  {
    var later := CivilDate(c.year + 1900, c.month, c.day);
    MakeDayOfShortYear(c);
    CivilRoundTrip(c);
    CivilRoundTrip(later);
    if DaysFromCivil(c) == DaysFromCivil(later) {
      DaysFromCivilInjective(c, later);
    }
  }
}
