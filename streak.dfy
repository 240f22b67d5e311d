/**
  The seven-day streak of the start screen: the persisted list of played
  dates (day numbers), the per-date flags that make the +70 bonus one-shot,
  and isSevenDayStreak.
 */
module Streak {

  predicate Sorted(s: seq<int>) {
    forall i, j :: 0 <= i < j < |s| ==> s[i] <= s[j]
  }

  /** Puts x into a sorted sequence, before the first element not smaller than it. */
  function Insert(s: seq<int>, x: int): (r: seq<int>)
    requires Sorted(s)
    ensures Sorted(r) && |r| == |s| + 1
    ensures multiset(r) == multiset(s) + multiset{x}
    ensures r[0] == if s == [] || x <= s[0] then x else s[0]
  {
    if s == [] || x <= s[0] then [x] + s
    else
      assert s == [s[0]] + s[1..];
      [s[0]] + Insert(s[1..], x)
  }

  /** Swift's `sorted()` on the played dates: ascending, the same dates. */
  function SortDays(s: seq<int>): (r: seq<int>)
    ensures Sorted(r) && multiset(r) == multiset(s) && |r| == |s|
  {
    if s == [] then []
    else
      assert s == [s[0]] + s[1..];
      Insert(SortDays(s[1..]), s[0])
  }

  /** Sorting an ascending sequence leaves it as it is (the source sorts twice). */
  lemma {:induction false} SortDaysKeepsSorted(s: seq<int>)
    requires Sorted(s)
    ensures SortDays(s) == s
  {
    if s != [] {
      SortDaysKeepsSorted(s[1..]);
      assert s == [s[0]] + s[1..];
    }
  }

  // ---------------------------------------------------------------------
  // The run of consecutive days ending at the latest date

  /** How many consecutive days, counted back from the last date, the sequence ends with. */
  function RunLength(d: seq<int>): nat
    requires |d| > 0
  {
    if |d| == 1 then 1
    else if d[|d| - 2] == d[|d| - 1] - 1 then RunLength(d[..|d| - 1]) + 1
    else 1
  }

  /** The last k dates are consecutive days. */
  predicate ConsecutiveTail(d: seq<int>, k: int) {
    1 <= k <= |d| && forall j :: |d| - k <= j < |d| - 1 ==> d[j] + 1 == d[j + 1]
  }

  /** RunLength is the length of the longest consecutive tail: its tail is consecutive
      and the date before it (if any) is not the previous day. */
  lemma {:induction false} RunLengthIsMaximal(d: seq<int>)
    requires |d| > 0
    ensures ConsecutiveTail(d, RunLength(d))
    ensures RunLength(d) < |d| ==> d[|d| - RunLength(d) - 1] + 1 != d[|d| - RunLength(d)]
  {
    if |d| > 1 && d[|d| - 2] == d[|d| - 1] - 1 {
      var init := d[..|d| - 1];
      RunLengthIsMaximal(init);
      var k := RunLength(init);
      assert RunLength(d) == k + 1;
      forall j | |d| - (k + 1) <= j < |d| - 1
        ensures d[j] + 1 == d[j + 1]
      {
        if j < |d| - 2 {
          assert init[j] == d[j] && init[j + 1] == d[j + 1];
        }
      }
      if k + 1 < |d| {
        assert init[|init| - k - 1] == d[|d| - (k + 1) - 1];
        assert init[|init| - k] == d[|d| - (k + 1)];
      }
    }
  }

  /** Any consecutive tail is a lower bound on RunLength. */
  lemma {:induction false} ConsecutiveTailBoundsRun(d: seq<int>, k: int)
    requires ConsecutiveTail(d, k)
    ensures RunLength(d) >= k
  {
    if k > 1 {
      var init := d[..|d| - 1];
      assert d[|d| - 2] + 1 == d[|d| - 1];
      assert ConsecutiveTail(init, k - 1);
      ConsecutiveTailBoundsRun(init, k - 1);
    }
  }

  /** A consecutive tail that cannot be extended is the run. */
  lemma RunLengthUnique(d: seq<int>, k: int)
    requires ConsecutiveTail(d, k)
    requires k == |d| || d[|d| - k - 1] + 1 != d[|d| - k]
    ensures RunLength(d) == k
  {
    RunLengthIsMaximal(d);
    ConsecutiveTailBoundsRun(d, k);
  }

  /** At least seven dates, a run of exactly seven consecutive days ends at the latest
      one, and the latest is the given date (the puzzle's date). */
  predicate SevenDayStreak(d: seq<int>, date: int) {
    |d| >= 7 && RunLength(d) == 7 && d[|d| - 1] == date
  }

  /** A run of eight or more consecutive days is not a seven-day streak. */
  lemma LongerRunIsNoStreak(d: seq<int>, date: int)
    requires ConsecutiveTail(d, 8)
    ensures !SevenDayStreak(d, date)
  {
    ConsecutiveTailBoundsRun(d, 8);
  }

  /** Seven consecutive days ending on the given date, with no played day just before them, is a streak. */
  lemma SevenDaysEndingOnDateIsStreak(d: seq<int>, date: int)
    requires ConsecutiveTail(d, 7) && d[|d| - 1] == date
    requires |d| == 7 || d[|d| - 8] + 1 != d[|d| - 7]
    ensures SevenDayStreak(d, date)
  {
    RunLengthUnique(d, 7);
  }

  /** isSevenDayStreak: sorts the dates, walks back from the latest while each date is
      the day before the previous one, then asks for a count of exactly 7 ending on the date passed in (the puzzle's date). */
  method IsSevenDayStreak(dates: seq<int>, currentDate: int) returns (streak: bool)
    ensures streak == SevenDayStreak(SortDays(dates), currentDate)
  {
    if |dates| < 7 {
      return false;
    }
    var sortedDates := SortDays(dates);
    var n := |sortedDates|;
    var streakCount := 1;
    var lastDate := sortedDates[n - 1];
    var i := n - 2;
    while i >= 0
      invariant -1 <= i <= n - 2
      invariant streakCount == n - 1 - i
      invariant lastDate == sortedDates[i + 1]
      invariant ConsecutiveTail(sortedDates, streakCount)
    {
      var previousDate := sortedDates[i];
      if previousDate == lastDate - 1 {
        streakCount := streakCount + 1;
        lastDate := previousDate;
      } else {
        break;
      }
      i := i - 1;
    }
    RunLengthUnique(sortedDates, streakCount);
    streak := streakCount == 7 && sortedDates[n - 1] == currentDate;
  }

  // ---------------------------------------------------------------------
  // The persisted played dates and per-date flags

  /** The `PlayedDates` list and, per date, the `StreakBonusGiven_`, `FirstGamePlayedToday_`
      and `StreakAchieved_` flags, as the sets of dates whose flag is set. */
  datatype Ledger = Ledger(playedDates: seq<int>, streakBonusGiven: set<int>,
                           firstGamePlayedToday: set<int>, streakAchieved: set<int>)

  /** No value occurs twice in the list. */
  predicate NoDuplicates<T(==)>(s: seq<T>) {
    forall i, j :: 0 <= i < j < |s| ==> s[i] != s[j]
  }

  /** savePlayedDate: the date joins the list unless it is already there. */
  function SavePlayedDate(l: Ledger, date: int): (l': Ledger)
    ensures date in l'.playedDates
    ensures forall x :: x in l'.playedDates <==> x in l.playedDates || x == date
    ensures |l'.playedDates| == |l.playedDates| + (if date in l.playedDates then 0 else 1)
    ensures NoDuplicates(l.playedDates) ==> NoDuplicates(l'.playedDates)
    ensures l'.streakBonusGiven == l.streakBonusGiven && l'.firstGamePlayedToday == l.firstGamePlayedToday
    ensures l'.streakAchieved == l.streakAchieved
  {
    if date in l.playedDates then l else l.(playedDates := l.playedDates + [date])
  }

  /** Saving a date that is already saved changes nothing. */
  lemma SavePlayedDateIdempotent(l: Ledger, date: int)
    ensures SavePlayedDate(SavePlayedDate(l, date), date) == SavePlayedDate(l, date)
  {
  }

  /** The +70 bonus is due when the sorted dates make a seven-day streak ending on this
      date and neither this date's bonus flag nor its first-game flag is set. */
  predicate StreakBonusDue(l: Ledger, date: int) {
    SevenDayStreak(SortDays(l.playedDates), date)
    && date !in l.streakBonusGiven && date !in l.firstGamePlayedToday
  }

  /** Granting the bonus sets the date's three flags; otherwise the ledger is left as it is. */
  function AwardStreak(l: Ledger, date: int): (l': Ledger)
    ensures l'.playedDates == l.playedDates
    ensures StreakBonusDue(l, date) ==>
              l'.streakBonusGiven == l.streakBonusGiven + {date}
              && l'.firstGamePlayedToday == l.firstGamePlayedToday + {date}
              && l'.streakAchieved == l.streakAchieved + {date}
    ensures !StreakBonusDue(l, date) ==> l' == l
  {
    if StreakBonusDue(l, date) then
      l.(streakBonusGiven := l.streakBonusGiven + {date},
         firstGamePlayedToday := l.firstGamePlayedToday + {date},
         streakAchieved := l.streakAchieved + {date})
    else l
  }

  /** The check both end-of-game paths of the game screen run: the date is saved as
      played, the saved dates are sorted, and the bonus is due when they make a
      seven-day streak ending that day and neither of the day's flags is set. */
  method CheckStreak(l: Ledger, date: int) returns (saved: Ledger, bonusDue: bool)
    ensures saved == SavePlayedDate(l, date)
    ensures bonusDue == StreakBonusDue(saved, date)
  {
    saved := SavePlayedDate(l, date);
    var sortedDates := SortDays(saved.playedDates);
    SortDaysKeepsSorted(sortedDates);
    var streak := IsSevenDayStreak(sortedDates, date);
    bonusDue := streak && date !in saved.streakBonusGiven && date !in saved.firstGamePlayedToday;
  }

  /** Once granted, the bonus is never due again for the same date, however often the
      date is saved again. */
  lemma StreakBonusOncePerDate(l: Ledger, date: int)
    requires StreakBonusDue(l, date)
    ensures !StreakBonusDue(SavePlayedDate(AwardStreak(l, date), date), date)
  {
  }
}
