/**
 * The stand-alone client (app.js): a `HabitTracker` holding the list of habits that it
 * keeps in local storage, and the edits its buttons make to that list.
 */
module LocalTracker {
  import opened Wrappers
  import opened Seqs
  import opened Text
  import opened Dates

  /** A habit as app.js stores it; `id` is the `Date.now()` of its creation. */
  datatype Habit = Habit(id: int, name: string, completedDates: seq<Day>, createdAt: string)

  /** No date occurs twice. */
  predicate Distinct(dates: seq<Day>)
  {
    forall i, j | 0 <= i < j < |dates| :: dates[i] != dates[j]
  }

  /** No habit lists a date twice: what `toggleDate` and `markToday` keep. */
  predicate DistinctDates(habits: seq<Habit>)
  {
    forall k | 0 <= k < |habits| :: Distinct(habits[k].completedDates)
  }

  /** `habits.find(h => h.id === id)`, as the position of the first match. */
  function FindHabit(habits: seq<Habit>, id: int): (r: Option<nat>)
    ensures r.Some? ==> r.value < |habits| && habits[r.value].id == id
    ensures r.Some? ==> forall k | 0 <= k < r.value :: habits[k].id != id
    ensures r.None? <==> forall k | 0 <= k < |habits| :: habits[k].id != id
  {
    if habits == [] then None
    else if habits[0].id == id then Some(0)
    else match FindHabit(habits[1..], id)
      case None => None
      case Some(i) => Some(i + 1)
  }

  /** `habits.filter(h => h.id !== id)`. */
  function WithoutHabit(habits: seq<Habit>, id: int): (r: seq<Habit>)
    ensures |r| <= |habits|
    ensures forall h :: h in r <==> h in habits && h.id != id
    ensures (forall k | 0 <= k < |habits| :: habits[k].id != id) ==> r == habits
  {
    if habits == [] then []
    else if habits[0].id == id then WithoutHabit(habits[1..], id)
    else
      assert habits == [habits[0]] + habits[1..];
      [habits[0]] + WithoutHabit(habits[1..], id)
  }

  /** The habits that are kept stay in their order: filtering distributes over concatenation. */
  lemma {:induction false} WithoutHabitConcat(a: seq<Habit>, b: seq<Habit>, id: int)
    ensures WithoutHabit(a + b, id) == WithoutHabit(a, id) + WithoutHabit(b, id)
  {
    if a == [] {
      assert a + b == b;
    } else {
      assert (a + b)[1..] == a[1..] + b;
      WithoutHabitConcat(a[1..], b, id);
    }
  }

  /** The date edit of `toggleDate`: splice out the first occurrence of `date`, or push it. */
  function ToggleDay(dates: seq<Day>, date: Day): (r: seq<Day>)
    ensures date !in dates ==> r == dates + [date]
    ensures date in dates ==> exists i | 0 <= i < |dates| ::
      dates[i] == date && date !in dates[..i] && r == dates[..i] + dates[i + 1..]
    ensures multiset(r) == if date in dates then multiset(dates) - multiset{date} else multiset(dates) + multiset{date}
  {
    match IndexOf(dates, date)
    case None => dates + [date]
    case Some(i) =>
      assert dates == dates[..i] + [date] + dates[i + 1..];
      RemoveAt(dates, i)
  }

  lemma DistinctWithout(dates: seq<Day>, i: nat)
    requires i < |dates| && Distinct(dates)
    ensures Distinct(dates[..i] + dates[i + 1..])
    ensures dates[i] !in dates[..i] + dates[i + 1..]
  {
    var r := dates[..i] + dates[i + 1..];
    forall a, b | 0 <= a < b < |r|
      ensures r[a] != r[b]
    {
      var a' := if a < i then a else a + 1;
      var b' := if b < i then b else b + 1;
      assert r[a] == dates[a'] && r[b] == dates[b'];
    }
    forall k | 0 <= k < |r|
      ensures r[k] != dates[i]
    {
      assert r[k] == dates[if k < i then k else k + 1];
    }
  }

  /** On a list without repeats, `toggleDate` flips membership and keeps the list without repeats. */
  lemma ToggleDayFlips(dates: seq<Day>, date: Day)
    requires Distinct(dates)
    ensures Distinct(ToggleDay(dates, date))
    ensures date in ToggleDay(dates, date) <==> date !in dates
  {
    if date in dates {
      var i :| 0 <= i < |dates| && dates[i] == date && date !in dates[..i]
        && ToggleDay(dates, date) == dates[..i] + dates[i + 1..];
      DistinctWithout(dates, i);
    }
  }

  /** Toggling a date that is absent twice gives the list back unchanged. */
  lemma ToggleDayTwiceAbsent(dates: seq<Day>, date: Day)
    requires date !in dates
    ensures ToggleDay(ToggleDay(dates, date), date) == dates
  {
    var once := dates + [date];
    assert IndexOf(once, date) == Some(|dates|) by {
      assert once[..|dates|] == dates;
    }
    assert once[..|dates|] == dates;
  }

  /**
   * Toggling a date twice restores which dates the habit holds, each as often as before,
   * when the list has no repeats; a present date moves to the end.
   */
  lemma ToggleDayTwice(dates: seq<Day>, date: Day)
    requires Distinct(dates)
    ensures date in ToggleDay(ToggleDay(dates, date), date) <==> date in dates
    ensures multiset(ToggleDay(ToggleDay(dates, date), date)) == multiset(dates)
  {
    ToggleDayFlips(dates, date);
    ToggleDayFlips(ToggleDay(dates, date), date);
    if date in dates {
      assert date in multiset(dates);
    }
  }

  /** The date edit of `markToday`: push `today` only if it is absent. */
  function MarkDay(dates: seq<Day>, today: Day): (r: seq<Day>)
    ensures today in r
    ensures forall d | d in dates :: d in r
    ensures forall d | d in r :: d in dates || d == today
    ensures today in dates ==> r == dates
    ensures today !in dates ==> multiset(r) == multiset(dates) + multiset{today}
  {
    if today in dates then dates else dates + [today]
  }

  /** Marking today a second time changes nothing, and marking keeps a list without repeats. */
  lemma MarkDayIdempotent(dates: seq<Day>, today: Day)
    ensures MarkDay(MarkDay(dates, today), today) == MarkDay(dates, today)
    ensures Distinct(dates) ==> Distinct(MarkDay(dates, today))
  {
  }

  /** The habit at position `i` with its dates replaced, every other habit as it was. */
  function WithDates(habits: seq<Habit>, i: nat, dates: seq<Day>): (r: seq<Habit>)
    requires i < |habits|
    ensures |r| == |habits|
    ensures r[i] == habits[i].(completedDates := dates)
    ensures forall k | 0 <= k < |habits| && k != i :: r[k] == habits[k]
  {
    habits[i := habits[i].(completedDates := dates)]
  }

  /** The effect of `toggleDate(habitId, date)` on the list of habits. */
  function ToggleIn(habits: seq<Habit>, habitId: int, date: Day): (r: seq<Habit>)
    ensures |r| == |habits|
    ensures FindHabit(habits, habitId).None? ==> r == habits
    ensures forall k | 0 <= k < |habits| && Some(k) != FindHabit(habits, habitId) :: r[k] == habits[k]
    ensures FindHabit(habits, habitId).Some? ==> var i := FindHabit(habits, habitId).value;
      r[i] == habits[i].(completedDates := ToggleDay(habits[i].completedDates, date))
  {
    match FindHabit(habits, habitId)
    case None => habits
    case Some(i) => WithDates(habits, i, ToggleDay(habits[i].completedDates, date))
  }

  /** The effect of `markToday(habitId)` on the list of habits. */
  function MarkIn(habits: seq<Habit>, habitId: int, today: Day): (r: seq<Habit>)
    ensures |r| == |habits|
    ensures FindHabit(habits, habitId).None? ==> r == habits
    ensures forall k | 0 <= k < |habits| && Some(k) != FindHabit(habits, habitId) :: r[k] == habits[k]
    ensures FindHabit(habits, habitId).Some? ==> var i := FindHabit(habits, habitId).value;
      r[i] == habits[i].(completedDates := MarkDay(habits[i].completedDates, today))
  {
    match FindHabit(habits, habitId)
    case None => habits
    case Some(i) => WithDates(habits, i, MarkDay(habits[i].completedDates, today))
  }

  /** Lists of habits with the same ids, position by position, find the same habit. */
  lemma FindSameIds(a: seq<Habit>, b: seq<Habit>, id: int)
    requires |a| == |b| && forall k | 0 <= k < |a| :: a[k].id == b[k].id
    ensures FindHabit(a, id) == FindHabit(b, id)
  {
  }

  /** `toggleDate` keeps every habit's dates free of repeats. */
  lemma ToggleInKeepsDistinct(habits: seq<Habit>, habitId: int, date: Day)
    requires DistinctDates(habits)
    ensures DistinctDates(ToggleIn(habits, habitId, date))
  {
    if FindHabit(habits, habitId).Some? {
      ToggleDayFlips(habits[FindHabit(habits, habitId).value].completedDates, date);
    }
  }

  /** `markToday` keeps every habit's dates free of repeats. */
  lemma MarkInKeepsDistinct(habits: seq<Habit>, habitId: int, today: Day)
    requires DistinctDates(habits)
    ensures DistinctDates(MarkIn(habits, habitId, today))
  {
    if FindHabit(habits, habitId).Some? {
      MarkDayIdempotent(habits[FindHabit(habits, habitId).value].completedDates, today);
    }
  }

  /** Toggling the same date of the same habit twice restores which dates every habit holds. */
  lemma ToggleInTwice(habits: seq<Habit>, habitId: int, date: Day)
    requires DistinctDates(habits)
    ensures var twice := ToggleIn(ToggleIn(habits, habitId, date), habitId, date);
      |twice| == |habits| &&
      forall k | 0 <= k < |habits| ::
        twice[k].id == habits[k].id && twice[k].name == habits[k].name &&
        multiset(twice[k].completedDates) == multiset(habits[k].completedDates)
  {
    var found := FindHabit(habits, habitId);
    if found.Some? {
      var i := found.value;
      var once := ToggleIn(habits, habitId, date);
      FindSameIds(once, habits, habitId);
      var twice := ToggleIn(once, habitId, date);
      assert twice[i].completedDates == ToggleDay(ToggleDay(habits[i].completedDates, date), date);
      ToggleDayTwice(habits[i].completedDates, date);
      forall k | 0 <= k < |habits| && k != i
        ensures twice[k] == habits[k]
      {
        assert once[k] == habits[k];
      }
    }
  }

  /** Marking today a second time changes nothing. */
  lemma MarkInIdempotent(habits: seq<Habit>, habitId: int, today: Day)
    ensures MarkIn(MarkIn(habits, habitId, today), habitId, today) == MarkIn(habits, habitId, today)
  {
    var found := FindHabit(habits, habitId);
    if found.Some? {
      var i := found.value;
      var once := MarkIn(habits, habitId, today);
      FindSameIds(once, habits, habitId);
      MarkDayIdempotent(habits[i].completedDates, today);
      assert once[i := once[i]] == once;
    }
  }

  /** The tracker object of app.js; `habits` is what it loads from and saves to local storage. */
  class HabitTracker {
    var habits: seq<Habit>

    /** `new HabitTracker()` with the habits `loadHabits` read. */
    constructor (stored: seq<Habit>)
      ensures habits == stored
    {
      habits := stored;
    }

    /** The tracker's invariant: no habit lists a date twice. */
    predicate Valid()
      reads this
    {
      DistinctDates(habits)
    }

    /**
     * `addHabit()` with the input field's text; `now` and `createdAt` stand for `Date.now()`
     * and `new Date().toISOString()`. A blank name is refused (the alert) and nothing changes.
     */
    method AddHabit(input: string, now: int, createdAt: string) returns (added: bool)
      modifies this
      ensures added <==> Trim(input) != []
      ensures added ==> habits == old(habits) + [Habit(now, Trim(input), [], createdAt)]
      ensures !added ==> habits == old(habits)
      ensures old(Valid()) ==> Valid()
    {
      var name := Trim(input);
      if name == [] {
        return false;
      }
      habits := habits + [Habit(now, name, [], createdAt)];
      added := true;
    }

    /** `deleteHabit(id)`; `confirmed` is the answer to the confirmation dialog. */
    method DeleteHabit(id: int, confirmed: bool)
      modifies this
      ensures habits == if confirmed then WithoutHabit(old(habits), id) else old(habits)
      ensures old(Valid()) ==> Valid()
    {
      if confirmed {
        habits := WithoutHabit(habits, id);
      }
    }

    /** `toggleDate(habitId, dateStr)` for the habit's list of dates. */
    method ToggleDate(habitId: int, date: Day)
      modifies this
      ensures habits == ToggleIn(old(habits), habitId, date)
      ensures old(Valid()) ==> Valid()
    {
      if Valid() {
        ToggleInKeepsDistinct(habits, habitId, date);
      }
      var found := FindHabit(habits, habitId);
      if found.None? {
        return;
      }
      var i := found.value;
      var dates := habits[i].completedDates;
      var index := IndexOf(dates, date);
      if index.Some? {
        dates := RemoveAt(dates, index.value);
      } else {
        dates := dates + [date];
      }
      assert dates == ToggleDay(habits[i].completedDates, date);
      habits := WithDates(habits, i, dates);
    }

    /** `markToday(habitId)`; `today` stands for the date of the clock. */
    method MarkToday(habitId: int, today: Day)
      modifies this
      ensures habits == MarkIn(old(habits), habitId, today)
      ensures old(Valid()) ==> Valid()
    {
      if Valid() {
        MarkInKeepsDistinct(habits, habitId, today);
      }
      var found := FindHabit(habits, habitId);
      if found.None? {
        return;
      }
      var i := found.value;
      if today !in habits[i].completedDates {
        habits := WithDates(habits, i, habits[i].completedDates + [today]);
      }
    }
  }
}
