/**
 * The statistics both browser clients show for a habit: the current streak, the longest
 * streak, the total, and the 30-day completion rate. A habit's `completedDates` are day
 * numbers here; `Dates.DateStringInjective` is what lets the clients' string comparisons
 * be read as comparisons of days.
 */
module Streaks {
  import opened Dates

  // ----- current streak -----

  /** A day no later than every completed day (0 when there are none). */
  function Lowest(dates: seq<Day>): (low: Day)
    ensures forall k | 0 <= k < |dates| :: low <= dates[k]
  {
    if |dates| == 0 then 0
    else
      var rest := Lowest(dates[1..]);
      assert forall k | 1 <= k < |dates| :: dates[k] == dates[1..][k - 1];
      if dates[0] < rest then dates[0] else rest
  }

  /** How far the backward walk from `cursor` can still go before it must stop. */
  function WalkMeasure(dates: seq<Day>, cursor: Day, missed: bool): nat
  {
    var above := cursor - Lowest(dates) + 2;
    (if above >= 0 then 2 * above else 0) + (if missed then 0 else 1)
  }

  /**
   * The backward walk of `calculateCurrentStreak` from `cursor`: a completed day counts and
   * the walk goes on; one missing day is stepped over (`missed` says the day after
   * `cursor` was missing); a second missing day in a row ends the walk.
   */
  function Walk(dates: seq<Day>, cursor: Day, missed: bool): nat
    decreases WalkMeasure(dates, cursor, missed)
  {
    if cursor in dates then 1 + Walk(dates, cursor - 1, false)
    else if !missed then Walk(dates, cursor - 1, true)
    else 0
  }

  /**
   * `calculateCurrentStreak(habit)`, with `today` the day the client runs on. The loop
   * mirrors the source's `for (i = 0; i <= 1; i++)` with its `i = -1` reset.
   */
  method CurrentStreak(dates: seq<Day>, today: Day) returns (streak: nat)
    ensures streak == Walk(dates, today, false)
  {
    if |dates| == 0 {
      return 0;
    }
    streak := 0;
    var cursor := today;
    var i := 0;
    while i <= 1
      invariant 0 <= i <= 1
      invariant streak + Walk(dates, cursor, i == 1) == Walk(dates, today, false)
      decreases WalkMeasure(dates, cursor, i == 1)
    {
      if cursor in dates {
        streak := streak + 1;
        cursor := cursor - 1;
        i := -1;
      } else if i == 0 {
        cursor := cursor - 1;
      } else {
        break;
      }
      i := i + 1;
    }
  }

  /** The number of distinct completed days in the interval (lo, hi]. */
  function CountIn(dates: seq<Day>, lo: Day, hi: Day): nat
  {
    |set d | d in dates && lo < d <= hi|
  }

  lemma CountInStep(dates: seq<Day>, lo: Day, hi: Day)
    requires lo < hi
    ensures CountIn(dates, lo, hi) == CountIn(dates, lo, hi - 1) + (if hi in dates then 1 else 0)
  {
    var below := set d | d in dates && lo < d <= hi - 1;
    if hi in dates {
      assert (set d | d in dates && lo < d <= hi) == below + {hi};
    } else {
      assert (set d | d in dates && lo < d <= hi) == below;
    }
  }

  /** Neither `day` nor the day before it is completed. */
  predicate Gap(dates: seq<Day>, day: Day)
  {
    day !in dates && day - 1 !in dates
  }

  /**
   * The latest day `g` at or before `day` such that neither `g` nor `g - 1` is completed:
   * the pair of missing days where the backward walk from `day` stops.
   */
  function LatestGap(dates: seq<Day>, day: Day): (g: Day)
    ensures g <= day && Gap(dates, g)
    ensures forall x | g < x <= day :: !Gap(dates, x)
    decreases if day >= Lowest(dates) then day - Lowest(dates) + 1 else 0
  {
    if Gap(dates, day) then day
    else LatestGap(dates, day - 1)
  }

  /**
   * The current streak is the number of distinct completed days after the latest pair of
   * consecutive missing days, up to and including today.
   */
  lemma {:induction false} WalkCountsSinceGap(dates: seq<Day>, day: Day)
    ensures Walk(dates, day, false) == CountIn(dates, LatestGap(dates, day), day)
    decreases if day >= Lowest(dates) then day - Lowest(dates) + 1 else 0
  {
    var g := LatestGap(dates, day);
    if day in dates {
      WalkCountsSinceGap(dates, day - 1);
      CountInStep(dates, g, day);
    } else if day - 1 in dates {
      assert Walk(dates, day, false) == 1 + Walk(dates, day - 2, false);
      assert LatestGap(dates, day - 1) == LatestGap(dates, day - 2);
      WalkCountsSinceGap(dates, day - 2);
      CountInStep(dates, g, day);
      CountInStep(dates, g, day - 1);
    } else {
      assert (set d | d in dates && g < d <= day) == {};
    }
  }

  /** The streak is 0 exactly when neither today nor yesterday is completed. */
  lemma StreakZero(dates: seq<Day>, today: Day)
    ensures Walk(dates, today, false) == 0 <==> today !in dates && today - 1 !in dates
  {
  }

  /** The streak never exceeds the number of distinct completed days up to today. */
  lemma StreakBound(dates: seq<Day>, today: Day)
    ensures Walk(dates, today, false) <= |set d | d in dates && d <= today|
  {
    WalkCountsSinceGap(dates, today);
    var g := LatestGap(dates, today);
    var counted, upTo := set d | d in dates && g < d <= today, set d | d in dates && d <= today;
    assert upTo == counted + (upTo - counted);
    assert |upTo| == |counted| + |upTo - counted|;
  }

  lemma {:induction false} RunCounted(dates: seq<Day>, lo: Day, hi: Day, k: nat)
    requires lo <= hi - k
    requires forall d | hi - k < d <= hi :: d in dates
    ensures CountIn(dates, lo, hi) >= k
    decreases k
  {
    if k > 0 {
      CountInStep(dates, lo, hi);
      RunCounted(dates, lo, hi - 1, k - 1);
    }
  }

  /** Completing each of the last `k` days up to today gives a streak of at least `k`. */
  lemma StreakCountsRun(dates: seq<Day>, today: Day, k: nat)
    requires forall d | today - k < d <= today :: d in dates
    ensures Walk(dates, today, false) >= k
  {
    WalkCountsSinceGap(dates, today);
    var g := LatestGap(dates, today);
    assert g !in dates;
    RunCounted(dates, g, today, k);
  }

  /** Three completed days ending today give a streak of 3. */
  lemma StreakOfThreeDays(today: Day)
    ensures Walk([today, today - 1, today - 2], today, false) == 3
  {
    var dates := [today, today - 1, today - 2];
    assert today - 3 !in dates && today - 4 !in dates;
    assert Walk(dates, today - 3, false) == Walk(dates, today - 4, true) == 0;
    assert today - 2 in dates && today - 1 in dates && today in dates;
    assert Walk(dates, today - 2, false) == 1;
    assert Walk(dates, today - 1, false) == 2;
  }

  /** A habit completed yesterday but not yet today still has a streak of 1. */
  lemma StreakFromYesterday(today: Day)
    ensures Walk([today - 1], today, false) == 1
  {
    var dates := [today - 1];
    assert today - 2 !in dates && today - 3 !in dates && today !in dates;
    assert Walk(dates, today - 2, false) == Walk(dates, today - 3, true) == 0;
    assert Walk(dates, today - 1, false) == 1;
    assert Walk(dates, today, false) == Walk(dates, today - 1, true);
  }

  /** A single missed day inside the walk is stepped over, not only a missing today. */
  lemma StreakSkipsOneGap(today: Day)
    ensures Walk([today, today - 2], today, false) == 2
  {
    var dates := [today, today - 2];
    assert today - 3 !in dates && today - 4 !in dates && today - 1 !in dates;
    assert Walk(dates, today - 3, false) == Walk(dates, today - 4, true) == 0;
    assert Walk(dates, today - 2, false) == 1;
    assert Walk(dates, today - 1, false) == Walk(dates, today - 2, true) == 1;
  }

  // ----- longest streak -----

  predicate Sorted(s: seq<Day>)
  {
    forall i, j | 0 <= i < j < |s| :: s[i] <= s[j]
  }

  lemma SortedCons(y: Day, t: seq<Day>)
    requires Sorted(t) && forall k | 0 <= k < |t| :: y <= t[k]
    ensures Sorted([y] + t)
  {
    var r := [y] + t;
    forall i, j | 0 <= i < j < |r|
      ensures r[i] <= r[j]
    {
      assert r[j] == t[j - 1];
      if i > 0 {
        assert r[i] == t[i - 1];
      }
    }
  }

  function Insert(x: Day, s: seq<Day>): (r: seq<Day>)
    requires Sorted(s)
    ensures Sorted(r) && multiset(r) == multiset(s) + multiset{x}
    ensures forall k | 0 <= k < |r| :: r[k] == x || r[k] in s
  {
    if s == [] || x <= s[0] then
      SortedCons(x, s);
      [x] + s
    else
      assert s == [s[0]] + s[1..];
      var t := Insert(x, s[1..]);
      SortedCons(s[0], t);
      [s[0]] + t
  }

  /** `sort((a, b) => a - b)`: the completed days in ascending order, duplicates kept. */
  function SortAscending(s: seq<Day>): (r: seq<Day>)
    ensures Sorted(r) && multiset(r) == multiset(s)
  {
    if s == [] then []
    else
      assert s == [s[0]] + s[1..];
      Insert(s[0], SortAscending(s[1..]))
  }

  /** The day at position `k` is the day after the one at position `k - 1`. */
  predicate NextDay(s: seq<Day>, k: int)
  {
    0 < k < |s| && s[k] - s[k - 1] == 1
  }

  /** Positions i..j-1 of `s` are days that follow each other one day apart. */
  predicate IsRun(s: seq<Day>, i: int, j: int)
  {
    0 <= i < j <= |s| && forall k | i < k < j :: NextDay(s, k)
  }

  /** `longest` is the length of a longest run of consecutive days in `s`. */
  predicate LongestRun(s: seq<Day>, longest: nat)
  {
    (exists i, j | 0 <= i < |s| && 0 < j <= |s| :: IsRun(s, i, j) && j - i == longest)
    && forall i, j | 0 <= i < |s| && 0 < j <= |s| && IsRun(s, i, j) :: j - i <= longest
  }

  /** A run cannot reach back across a position that does not follow its predecessor. */
  lemma RunStartsAtBreak(s: seq<Day>, a: int, b: int, p: int)
    requires IsRun(s, a, b) && 0 <= p < b && (p == 0 || !NextDay(s, p))
    ensures p <= a
  {
  }

  /**
   * `calculateLongestStreak(habit)`: the longest run of days one day apart in the sorted
   * list; a duplicate date or a larger gap starts a new run.
   */
  method LongestStreak(dates: seq<Day>) returns (longest: nat)
    ensures |dates| == 0 ==> longest == 0
    ensures |dates| > 0 ==> 1 <= longest <= |dates| && LongestRun(SortAscending(dates), longest)
  {
    if |dates| == 0 {
      return 0;
    }
    var sorted := SortAscending(dates);
    assert |sorted| == |dates| by {
      assert |multiset(sorted)| == |multiset(dates)|;
    }
    longest := LongestRunLength(sorted);
  }

  /** The loop of `calculateLongestStreak` over the sorted dates. */
  method LongestRunLength(sorted: seq<Day>) returns (maxStreak: nat)
    requires |sorted| > 0
    ensures 1 <= maxStreak <= |sorted| && LongestRun(sorted, maxStreak)
  {
    maxStreak := 1;
    var currentStreak := 1;
    assert IsRun(sorted, 0, 1);
    for i := 1 to |sorted|
      invariant 1 <= currentStreak <= maxStreak <= i
      invariant IsRun(sorted, i - currentStreak, i)
      invariant i - currentStreak == 0 || !NextDay(sorted, i - currentStreak)
      invariant exists a, b | 0 <= a < b <= i :: IsRun(sorted, a, b) && b - a == maxStreak
      invariant forall a, b | 0 <= a < b <= i && IsRun(sorted, a, b) :: b - a <= maxStreak
    {
      var diffDays := sorted[i] - sorted[i - 1];
      if diffDays == 1 {
        currentStreak := currentStreak + 1;
        assert IsRun(sorted, i + 1 - currentStreak, i + 1);
        if currentStreak > maxStreak {
          maxStreak := currentStreak;
        }
      } else {
        currentStreak := 1;
        assert IsRun(sorted, i, i + 1);
      }
      forall a, b | 0 <= a < b <= i + 1 && IsRun(sorted, a, b)
        ensures b - a <= maxStreak
      {
        if b == i + 1 {
          RunStartsAtBreak(sorted, a, b, i + 1 - currentStreak);
        }
      }
    }
  }

  /** A list whose only consecutive pair is its first two days has a longest streak of 2. */
  lemma LongestOfThreeDays(a: Day, longest: nat)
    requires LongestRun([a, a + 1, a + 3], longest)
    ensures longest == 2
  {
    var s := [a, a + 1, a + 3];
    assert IsRun(s, 0, 2);
    assert !NextDay(s, 2);
  }

  /**
   * The current streak can exceed the longest streak: completing today and the day before
   * yesterday gives a current streak of 2 but no two consecutive days.
   */
  lemma CurrentExceedsLongest(today: Day, longest: nat)
    requires LongestRun(SortAscending([today, today - 2]), longest)
    ensures longest == 1 && Walk([today, today - 2], today, false) == 2
  {
    var s := SortAscending([today, today - 2]);
    assert s == [today - 2, today] by {
      assert Insert(today - 2, []) == [today - 2];
    }
    assert IsRun(s, 0, 1);
    assert !NextDay(s, 1);
    StreakSkipsOneGap(today);
  }

  // ----- completion rate and the stats record -----

  /**
   * The completed dates not earlier than `since` (the client's "30 days ago"), each kept
   * as often as it occurs.
   */
  function Recent(dates: seq<Day>, since: Day): (r: seq<Day>)
    ensures forall x :: multiset(r)[x] == if x >= since then multiset(dates)[x] else 0
  {
    if dates == [] then []
    else
      assert dates == [dates[0]] + dates[1..];
      (if dates[0] >= since then [dates[0]] else []) + Recent(dates[1..], since)
  }

  /** `Math.round(recent / 30 * 100)`, computed exactly as `(20 * recent + 3) / 6`. */
  function CompletionRate(recent: nat): (rate: nat)
    ensures 30 * rate - 15 <= 100 * recent < 30 * rate + 15
  {
    (20 * recent + 3) / 6
  }

  /** The rate stays within 100% exactly while at most 30 dates are recent. */
  lemma RateAtMostHundred(recent: nat)
    ensures CompletionRate(recent) <= 100 <==> recent <= 30
  {
  }

  datatype Stats = Stats(total: nat, currentStreak: nat, longestStreak: nat, completionRate: nat)

  /** `calculateStats(habit)`, with `today` and the 30-days-ago boundary `since` given. */
  method CalculateStats(dates: seq<Day>, today: Day, since: Day) returns (stats: Stats)
    ensures stats.total == |dates|
    ensures stats.currentStreak == Walk(dates, today, false)
    ensures |dates| > 0 ==> 1 <= stats.longestStreak <= |dates| && LongestRun(SortAscending(dates), stats.longestStreak)
    ensures stats.completionRate == CompletionRate(|Recent(dates, since)|)
    ensures |dates| == 0 ==> stats == Stats(0, 0, 0, 0)
  {
    var current := CurrentStreak(dates, today);
    var longest := LongestStreak(dates);
    var recent := |Recent(dates, since)|;
    if |dates| == 0 {
      assert recent == 0;
    }
    stats := Stats(|dates|, current, longest, CompletionRate(recent));
  }
}
