/**
 * The derived queries of the habit store, as functions of the habit list, the
 * completion ledger and the current day: the current streak, a day's tally of
 * scheduled and completed habits, today's progress, and the completion rate
 * over a window of recent days.
 */
module Metrics {
  import opened Dates
  import opened Sorting
  import opened Habits

  // ----- Streak -----

  /** Length of the run of one-day steps at the head of a list, counting the head itself. */
  function LeadingRun(s: seq<int>): (n: nat)
    requires |s| > 0
    ensures 1 <= n <= |s|
    ensures forall k | 1 <= k < n :: s[k - 1] - s[k] == 1
    ensures n < |s| ==> s[n - 1] - s[n] != 1
  {
    if |s| == 1 || s[0] - s[1] != 1 then 1
    else 1 + LeadingRun(s[1..])
  }

  /** The run is exactly as long as the stretch of one-day steps before the first gap. */
  lemma LeadingRunIsFirstGap(s: seq<int>, i: int)
    requires 1 <= i <= |s|
    requires forall k | 1 <= k < i :: s[k - 1] - s[k] == 1
    requires i == |s| || s[i - 1] - s[i] != 1
    ensures LeadingRun(s) == i
  {
  }

  /** The most recent day in a non-empty list. */
  function Latest(s: seq<int>): (m: int)
    requires |s| > 0
    ensures m in s
    ensures forall x | x in s :: x <= m
  {
    if |s| == 1 then s[0]
    else
      assert s == [s[0]] + s[1..];
      var rest := Latest(s[1..]);
      if s[0] >= rest then s[0] else rest
  }

  /**
   * calculateStreak: sort the days most recent first; no streak unless the most
   * recent is today or yesterday; otherwise the run of one-day steps from it.
   */
  function Streak(dates: seq<int>, today: int): (n: nat)
    ensures n <= |dates|
  {
    if |dates| == 0 then 0
    else
      var sorted := SortDescending(dates);
      assert |sorted| == |dates| by { assert |multiset(sorted)| == |multiset(dates)|; }
      if sorted[0] != today && sorted[0] != today - 1 then 0 else LeadingRun(sorted)
  }

  /**
   * What "current streak" means for a set of completed days: none unless the
   * most recent day is today or yesterday; otherwise n consecutive days ending
   * at the most recent one are all completed and the day before them is not.
   */
  predicate IsCurrentStreak(dates: seq<int>, today: int, n: int)
    ensures IsCurrentStreak(dates, today, n) ==> n >= 0
    ensures IsCurrentStreak(dates, today, n) && n > 0 ==> today in dates || today - 1 in dates
  {
    if |dates| == 0 || Latest(dates) > today || Latest(dates) < today - 1 then n == 0
    else RunEndsAt(dates, Latest(dates), n)
  }

  /** The n days ending at day m are all in the list, and the day before them is not. */
  predicate RunEndsAt(dates: seq<int>, m: int, n: int)
  {
    && n >= 1
    && (forall d | m - n < d <= m :: d in dates)
    && m - n !in dates
  }

  lemma SortedHeadIsLatest(dates: seq<int>)
    requires |dates| > 0
    ensures |SortDescending(dates)| == |dates|
    ensures SortDescending(dates)[0] == Latest(dates)
  {
    var s := SortDescending(dates);
    assert |s| == |multiset(s)| == |multiset(dates)| == |dates|;
    var m := Latest(dates);
    assert m in multiset(s);
    var k :| 0 <= k < |s| && s[k] == m;
    assert s[0] in multiset(dates);
    assert s[0] >= s[k];
  }

  lemma {:induction false} LeadingRunValues(s: seq<int>)
    requires |s| > 0
    ensures forall j | 0 <= j < LeadingRun(s) :: s[j] == s[0] - j
  {
    if |s| > 1 && s[0] - s[1] == 1 {
      LeadingRunValues(s[1..]);
    }
  }

  /** A streak is positive exactly when some day is recorded and the most recent one is today or yesterday. */
  lemma StreakPositiveIffAnchored(dates: seq<int>, today: int)
    ensures Streak(dates, today) > 0 <==> |dates| > 0 && today - 1 <= Latest(dates) <= today
  {
    if |dates| > 0 {
      SortedHeadIsLatest(dates);
    }
  }

  /** The leading run of a list covers every day from its head back n - 1 days. */
  lemma LeadingRunDaysPresent(s: seq<int>)
    requires |s| > 0
    ensures forall d | s[0] - LeadingRun(s) < d <= s[0] :: d in s
  {
    var n := LeadingRun(s);
    LeadingRunValues(s);
    forall d | s[0] - n < d <= s[0] ensures d in s {
      assert s[s[0] - d] == d;
    }
  }

  /** In a strictly descending list the day just before the leading run does not occur. */
  lemma DayBeforeRunAbsent(s: seq<int>)
    requires |s| > 0 && SortedDescending(s) && NoDuplicates(s)
    ensures s[0] - LeadingRun(s) !in s
  {
    LeadingRunValues(s);
  }

  /** The leading run of a strictly descending list is a run ending at its head. */
  lemma SortedRunEndsAtHead(s: seq<int>)
    requires |s| > 0 && SortedDescending(s) && NoDuplicates(s)
    ensures RunEndsAt(s, s[0], LeadingRun(s))
  {
    LeadingRunDaysPresent(s);
    DayBeforeRunAbsent(s);
  }

  /** Lists with the same elements have the same runs. */
  lemma SameRuns(dates: seq<int>, s: seq<int>, m: int, n: int)
    requires multiset(dates) == multiset(s)
    requires RunEndsAt(s, m, n)
    ensures RunEndsAt(dates, m, n)
  {
    forall d | m - n < d <= m ensures d in dates {
      assert d in s;
      assert d in multiset(s);
    }
    assert m - n !in multiset(s);
  }

  /** When the most recent day is today or yesterday, the leading run of the sorted days is the current streak. */
  lemma AnchoredRunIsCurrent(dates: seq<int>, today: int, s: seq<int>)
    requires |dates| > 0 && |s| > 0 && SortedDescending(s) && NoDuplicates(s)
    requires multiset(dates) == multiset(s)
    requires s[0] == Latest(dates) && today - 1 <= s[0] <= today
    ensures IsCurrentStreak(dates, today, LeadingRun(s))
  {
    SortedRunEndsAtHead(s);
    SameRuns(dates, s, s[0], LeadingRun(s));
  }

  /** On distinct days, as the ledger keeps them, calculateStreak computes the current streak. */
  lemma StreakIsCurrentRun(dates: seq<int>, today: int)
    requires NoDuplicates(dates)
    ensures IsCurrentStreak(dates, today, Streak(dates, today))
  {
    if |dates| > 0 {
      SortedHeadIsLatest(dates);
      var s := SortDescending(dates);
      if today - 1 <= s[0] <= today {
        NoDuplicatesPermutation(dates, s);
        AnchoredRunIsCurrent(dates, today, s);
      }
    }
  }

  /** At most one n is the current streak of a list of days. */
  lemma CurrentStreakUnique(dates: seq<int>, today: int, n1: int, n2: int)
    requires IsCurrentStreak(dates, today, n1) && IsCurrentStreak(dates, today, n2)
    ensures n1 == n2
  {
  }

  /** Two lists of distinct days with the same members have the same streak, whatever their order. */
  lemma StreakDependsOnlyOnDays(a: seq<int>, b: seq<int>, today: int)
    requires NoDuplicates(a) && NoDuplicates(b)
    requires forall d :: d in a <==> d in b
    ensures Streak(a, today) == Streak(b, today)
  {
    StreakIsCurrentRun(a, today);
    StreakIsCurrentRun(b, today);
    if |a| > 0 {
      assert a[0] in b;
      assert Latest(a) == Latest(b) by {
        assert Latest(a) in b && Latest(b) in a;
      }
    }
    CurrentStreakUnique(a, today, Streak(a, today), Streak(b, today));
  }

  /** Toggling the same day twice gives back the streak the entry had. */
  lemma ToggleTwiceRestoresStreak(entry: seq<int>, day: int, today: int)
    requires NoDuplicates(entry)
    ensures Streak(ToggledEntry(ToggledEntry(entry, day), day), today) == Streak(entry, today)
  {
    var once := ToggledEntry(entry, day);
    ToggledEntryKeepsNoDuplicates(entry, day);
    ToggledEntryKeepsNoDuplicates(once, day);
    ToggleTwiceSameDays(entry, day);
    StreakDependsOnlyOnDays(ToggledEntry(once, day), entry, today);
  }

  /** Today, yesterday and the day before completed, the day before that not: a streak of 3. */
  lemma StreakOfThree(dates: seq<int>, today: int)
    requires NoDuplicates(dates)
    requires today in dates && today - 1 in dates && today - 2 in dates && today - 3 !in dates
    requires forall d | d in dates :: d <= today
    ensures Streak(dates, today) == 3
  {
    ThreeDayRun(dates, today);
    StreakIsCurrentRun(dates, today);
    CurrentStreakUnique(dates, today, 3, Streak(dates, today));
  }

  lemma ThreeDayRun(dates: seq<int>, today: int)
    requires today in dates && today - 1 in dates && today - 2 in dates && today - 3 !in dates
    requires forall d | d in dates :: d <= today
    ensures IsCurrentStreak(dates, today, 3)
  {
    assert Latest(dates) == today;
  }

  /**
   * Yesterday completed but neither today nor the day before: a streak of 1
   * (yesterday still anchors the streak; older days such as today - 3 do not extend it).
   */
  lemma StreakFromYesterdayAlone(dates: seq<int>, today: int)
    requires NoDuplicates(dates)
    requires today - 1 in dates && today !in dates && today - 2 !in dates
    requires forall d | d in dates :: d <= today
    ensures Streak(dates, today) == 1
  {
    YesterdayRun(dates, today);
    StreakIsCurrentRun(dates, today);
    CurrentStreakUnique(dates, today, 1, Streak(dates, today));
  }

  lemma YesterdayRun(dates: seq<int>, today: int)
    requires today - 1 in dates && today !in dates && today - 2 !in dates
    requires forall d | d in dates :: d <= today
    ensures IsCurrentStreak(dates, today, 1)
  {
    assert Latest(dates) == today - 1;
  }

  // ----- Tallies of one day -----

  /** `habits.filter(h => h.targetDays.includes(w))`: the habits scheduled on weekday w, in order. */
  function ScheduledOn(habits: seq<Habit>, w: int): (r: seq<Habit>)
    ensures |r| <= |habits|
  {
    if habits == [] then []
    else
      var init, last := habits[..|habits| - 1], habits[|habits| - 1];
      ScheduledOn(init, w) + (if w in last.targetDays then [last] else [])
  }

  /** The filter keeps exactly the habits scheduled on weekday w. */
  lemma {:induction false} ScheduledOnMembers(habits: seq<Habit>, w: int)
    ensures forall h | h in ScheduledOn(habits, w) :: h in habits && w in h.targetDays
    ensures forall h | h in habits && w in h.targetDays :: h in ScheduledOn(habits, w)
  {
    if habits != [] {
      var init, last := habits[..|habits| - 1], habits[|habits| - 1];
      assert habits == init + [last];
      ScheduledOnMembers(init, w);
    }
  }

  /** isCompleted: the day is recorded for the habit; a missing ledger entry records nothing. */
  function IsCompleted(ledger: Ledger, id: string, day: int): (b: bool)
    ensures b <==> id in ledger && day in ledger[id]
  {
    day in Entry(ledger, id)
  }

  /** `hs.filter(h => isCompleted(h.id, day)).length`. */
  function CountCompleted(hs: seq<Habit>, ledger: Ledger, day: int): (n: nat)
    ensures n <= |hs|
  {
    if hs == [] then 0
    else
      var init, last := hs[..|hs| - 1], hs[|hs| - 1];
      CountCompleted(init, ledger, day) + (if IsCompleted(ledger, last.id, day) then 1 else 0)
  }

  /** Every habit of the list is counted exactly when every one has the day recorded. */
  lemma {:induction false} CountCompletedAll(hs: seq<Habit>, ledger: Ledger, day: int)
    ensures CountCompleted(hs, ledger, day) == |hs| <==> forall h | h in hs :: IsCompleted(ledger, h.id, day)
  {
    if hs != [] {
      var init, last := hs[..|hs| - 1], hs[|hs| - 1];
      assert hs == init + [last];
      CountCompletedAll(init, ledger, day);
    }
  }

  datatype Tally = Tally(completed: nat, total: nat)

  /** The habits scheduled on a day's weekday, and how many of them have that day recorded. */
  function TallyOn(habits: seq<Habit>, ledger: Ledger, day: int): (t: Tally)
    ensures t.completed <= t.total <= |habits|
  {
    var due := ScheduledOn(habits, WeekdayOf(day));
    Tally(CountCompleted(due, ledger, day), |due|)
  }

  /** A day's tally is empty exactly when no habit is scheduled on its weekday. */
  lemma TallyEmptyIffUnscheduled(habits: seq<Habit>, ledger: Ledger, day: int)
    ensures TallyOn(habits, ledger, day).total == 0 <==> forall h | h in habits :: WeekdayOf(day) !in h.targetDays
  {
    var due := ScheduledOn(habits, WeekdayOf(day));
    ScheduledOnMembers(habits, WeekdayOf(day));
    assert due != [] ==> due[0] in due;
  }

  /** Every habit scheduled on the day's weekday has the day recorded. */
  predicate DayDone(habits: seq<Habit>, ledger: Ledger, day: int)
  {
    forall h | h in habits && WeekdayOf(day) in h.targetDays :: IsCompleted(ledger, h.id, day)
  }

  /** A day's tally is complete exactly when every habit scheduled that day has it recorded. */
  lemma TallyCompleteIffAllDone(habits: seq<Habit>, ledger: Ledger, day: int)
    ensures TallyOn(habits, ledger, day).completed == TallyOn(habits, ledger, day).total
        <==> DayDone(habits, ledger, day)
  {
    ScheduledOnMembers(habits, WeekdayOf(day));
    CountCompletedAll(ScheduledOn(habits, WeekdayOf(day)), ledger, day);
  }

  /**
   * The `habits.forEach` pass of getCompletionRate for one day, as a fold over
   * the habit list: each habit scheduled on the day's weekday adds one to the
   * total, and one to the completed count when the day is recorded for it.
   */
  function DayCounts(habits: seq<Habit>, ledger: Ledger, day: int): (t: Tally)
    ensures t.completed <= t.total <= |habits|
  {
    if habits == [] then Tally(0, 0)
    else
      var prior, h := DayCounts(habits[..|habits| - 1], ledger, day), habits[|habits| - 1];
      if WeekdayOf(day) !in h.targetDays then prior
      else Tally(prior.completed + (if IsCompleted(ledger, h.id, day) then 1 else 0), prior.total + 1)
  }

  /** Counting habit by habit gives the same tally as filtering then counting. */
  lemma {:induction false} DayCountsIsTally(habits: seq<Habit>, ledger: Ledger, day: int)
    ensures DayCounts(habits, ledger, day) == TallyOn(habits, ledger, day)
  {
    if habits != [] {
      var init, h := habits[..|habits| - 1], habits[|habits| - 1];
      DayCountsIsTally(init, ledger, day);
      var due := ScheduledOn(init, WeekdayOf(day));
      if WeekdayOf(day) in h.targetDays {
        assert (due + [h])[..|due|] == due;
      } else {
        assert due + [] == due;
      }
    }
  }

  /** A day's counts are complete exactly when every habit scheduled that day has it recorded. */
  lemma DayCountsCompleteIffDone(habits: seq<Habit>, ledger: Ledger, day: int)
    ensures DayCounts(habits, ledger, day).completed == DayCounts(habits, ledger, day).total
        <==> DayDone(habits, ledger, day)
  {
    DayCountsIsTally(habits, ledger, day);
    TallyCompleteIffAllDone(habits, ledger, day);
  }

  // ----- Percentages -----

  /**
   * `Math.round(completed / total * 100)` on exact values: the nearest whole
   * percentage, halves rounded up.
   */
  function RoundedPercent(completed: nat, total: nat): (p: nat)
    requires total > 0
    ensures 2 * total * p <= 200 * completed + total < 2 * total * (p + 1)
    ensures completed <= total ==> p <= 100
    ensures completed == total ==> p == 100
    ensures completed == 0 ==> p == 0
  {
    RoundingFacts(completed, total);
    (200 * completed + total) / (2 * total)
  }

  lemma RoundingFacts(completed: nat, total: nat)
    requires total > 0
    ensures var p := (200 * completed + total) / (2 * total);
      && 0 <= p
      && 2 * total * p <= 200 * completed + total < 2 * total * (p + 1)
      && (completed <= total ==> p <= 100)
      && (completed == total ==> p == 100)
      && (completed == 0 ==> p == 0)
  {
    var a, b := 200 * completed + total, 2 * total;
    var p := a / b;
    assert a == b * p + a % b && 0 <= a % b < b;
    if completed <= total {
      DivUpperBound(a, b, 101);
    }
    if completed == total {
      DivUnique(a, b, 100);
    }
    if completed == 0 {
      DivUnique(a, b, 0);
    }
  }

  lemma DivUnique(a: int, b: int, q: int)
    requires b > 0 && b * q <= a < b * (q + 1)
    ensures a / b == q
  {
    var p, r := a / b, a % b;
    assert a == b * p + r && 0 <= r < b;
    if p < q {
      MulMonotone(b, p + 1, q);
    } else if p > q {
      MulMonotone(b, q + 1, p);
    }
  }

  lemma DivUpperBound(a: int, b: int, q: int)
    requires b > 0 && a < b * q
    ensures a / b < q
  {
    var p, r := a / b, a % b;
    assert a == b * p + r && 0 <= r < b;
    if p >= q {
      MulMonotone(b, q, p);
    }
  }

  lemma {:induction false} MulMonotone(b: int, x: int, y: int)
    requires b >= 0 && x <= y
    ensures b * x <= b * y
    decreases y - x
  {
    if x < y {
      MulMonotone(b, x, y - 1);
      assert b * y == b * (y - 1) + b;
    }
  }

  datatype Progress = Progress(total: nat, completed: nat, percentage: nat)

  /** getTodayProgress: today's tally and its rounded percentage, 0 when nothing is scheduled. */
  function TodayProgress(habits: seq<Habit>, ledger: Ledger, today: int): (p: Progress)
    ensures p.completed <= p.total
    ensures p.percentage <= 100
    ensures p.total == 0 <==> forall h | h in habits :: WeekdayOf(today) !in h.targetDays
    ensures p.total == 0 ==> p.completed == 0 && p.percentage == 0
    ensures p.total > 0 ==> 2 * p.total * p.percentage <= 200 * p.completed + p.total < 2 * p.total * (p.percentage + 1)
  {
    TallyEmptyIffUnscheduled(habits, ledger, today);
    var t := TallyOn(habits, ledger, today);
    Progress(t.total, t.completed, if t.total > 0 then RoundedPercent(t.completed, t.total) else 0)
  }

  // ----- A window of recent days -----

  /** Sum of the tallies of the n days ending today (today, today - 1, ..., today - (n - 1)). */
  function WindowTally(habits: seq<Habit>, ledger: Ledger, today: int, n: int): (t: Tally)
    ensures t.completed <= t.total
    decreases n
  {
    if n <= 0 then Tally(0, 0)
    else
      var prior := WindowTally(habits, ledger, today, n - 1);
      var day := DayCounts(habits, ledger, today - (n - 1));
      Tally(prior.completed + day.completed, prior.total + day.total)
  }

  /** Every (habit, day) pair scheduled in the n days ending today has the day recorded. */
  predicate AllScheduledDone(habits: seq<Habit>, ledger: Ledger, today: int, n: int)
  {
    forall d | today - n < d <= today :: DayDone(habits, ledger, d)
  }

  /** A window of n > 0 days is the window of n - 1 days plus its oldest day. */
  lemma WindowStep(habits: seq<Habit>, ledger: Ledger, today: int, n: int)
    requires n > 0
    ensures WindowTally(habits, ledger, today, n).completed
         == WindowTally(habits, ledger, today, n - 1).completed + DayCounts(habits, ledger, today - (n - 1)).completed
    ensures WindowTally(habits, ledger, today, n).total
         == WindowTally(habits, ledger, today, n - 1).total + DayCounts(habits, ledger, today - (n - 1)).total
  {
  }

  lemma AllScheduledDoneStep(habits: seq<Habit>, ledger: Ledger, today: int, n: int)
    requires n > 0
    ensures AllScheduledDone(habits, ledger, today, n)
        <==> AllScheduledDone(habits, ledger, today, n - 1) && DayDone(habits, ledger, today - (n - 1))
  {
  }

  /** Every scheduled pair of the window is counted as completed. */
  predicate WindowComplete(habits: seq<Habit>, ledger: Ledger, today: int, n: int)
  {
    WindowTally(habits, ledger, today, n).completed == WindowTally(habits, ledger, today, n).total
  }

  /** The window's completions reach its expected count exactly when every scheduled pair is done. */
  lemma {:induction false} WindowCompleteIffAllDone(habits: seq<Habit>, ledger: Ledger, today: int, n: int)
    ensures WindowComplete(habits, ledger, today, n) <==> AllScheduledDone(habits, ledger, today, n)
    decreases n
  {
    if n > 0 {
      WindowCompleteIffAllDone(habits, ledger, today, n - 1);
      WindowCompleteStep(habits, ledger, today, n);
    }
  }

  /** The induction step of WindowCompleteIffAllDone: from n - 1 days to n days. */
  lemma WindowCompleteStep(habits: seq<Habit>, ledger: Ledger, today: int, n: int)
    requires n > 0
    requires WindowComplete(habits, ledger, today, n - 1) <==> AllScheduledDone(habits, ledger, today, n - 1)
    ensures WindowComplete(habits, ledger, today, n) <==> AllScheduledDone(habits, ledger, today, n)
  {
    DayCountsCompleteIffDone(habits, ledger, today - (n - 1));
    WindowStep(habits, ledger, today, n);
    AllScheduledDoneStep(habits, ledger, today, n);
    var prior, day := WindowTally(habits, ledger, today, n - 1), DayCounts(habits, ledger, today - (n - 1));
    var t := WindowTally(habits, ledger, today, n);
    CompleteIffBothComplete(t, prior, day, AllScheduledDone(habits, ledger, today, n),
      AllScheduledDone(habits, ledger, today, n - 1), DayDone(habits, ledger, today - (n - 1)));
  }

  /**
   * A sum of two tallies, each at most complete, is complete exactly when both
   * are; so if each part is complete exactly when its condition holds, the sum
   * is complete exactly when both conditions hold.
   */
  lemma CompleteIffBothComplete(t: Tally, prior: Tally, day: Tally, both: bool, first: bool, second: bool)
    requires t.completed == prior.completed + day.completed && t.total == prior.total + day.total
    requires prior.completed <= prior.total && day.completed <= day.total
    requires prior.completed == prior.total <==> first
    requires day.completed == day.total <==> second
    requires both <==> first && second
    ensures t.completed == t.total <==> both
  {
  }

  /** No habit is scheduled on the weekday of any of the n days ending today. */
  predicate NothingScheduled(habits: seq<Habit>, today: int, n: int)
  {
    forall d, h | today - n < d <= today && h in habits :: WeekdayOf(d) !in h.targetDays
  }

  /** The window expects nothing exactly when no habit is scheduled on any of its days. */
  lemma {:induction false} WindowEmptyIffUnscheduled(habits: seq<Habit>, ledger: Ledger, today: int, n: int)
    ensures WindowTally(habits, ledger, today, n).total == 0 <==> NothingScheduled(habits, today, n)
    decreases n
  {
    if n > 0 {
      var oldest := today - (n - 1);
      WindowEmptyIffUnscheduled(habits, ledger, today, n - 1);
      DayCountsIsTally(habits, ledger, oldest);
      TallyEmptyIffUnscheduled(habits, ledger, oldest);
      NothingScheduledStep(habits, today, n);
    }
  }

  /** A window of n > 0 days schedules nothing exactly when its n - 1 newest days and its oldest day do not. */
  lemma NothingScheduledStep(habits: seq<Habit>, today: int, n: int)
    requires n > 0
    ensures NothingScheduled(habits, today, n)
        <==> NothingScheduled(habits, today, n - 1)
             && forall h | h in habits :: WeekdayOf(today - (n - 1)) !in h.targetDays
  {
  }

  /** getCompletionRate(n): the window's rounded completion percentage, 0 when nothing was scheduled. */
  function CompletionRate(habits: seq<Habit>, ledger: Ledger, today: int, n: int): (r: nat)
    ensures r <= 100
    ensures NothingScheduled(habits, today, n) ==> r == 0
    ensures WindowTally(habits, ledger, today, n).total == 0 ==> r == 0
  {
    WindowEmptyIffUnscheduled(habits, ledger, today, n);
    var t := WindowTally(habits, ledger, today, n);
    if t.total > 0 then RoundedPercent(t.completed, t.total) else 0
  }

  /** When some habit is scheduled in the window and every scheduled pair is done, the rate is 100. */
  lemma CompletionRateFull(habits: seq<Habit>, ledger: Ledger, today: int, n: int)
    requires AllScheduledDone(habits, ledger, today, n)
    requires !NothingScheduled(habits, today, n)
    ensures CompletionRate(habits, ledger, today, n) == 100
  {
    WindowEmptyIffUnscheduled(habits, ledger, today, n);
    WindowCompleteIffAllDone(habits, ledger, today, n);
  }

  lemma {:induction false} WindowTotalGrows(habits: seq<Habit>, ledger: Ledger, today: int, n: int)
    requires n >= 1
    ensures WindowTally(habits, ledger, today, n).total >= DayCounts(habits, ledger, today).total
    decreases n
  {
    if n > 1 {
      WindowTotalGrows(habits, ledger, today, n - 1);
    }
  }

  /**
   * A habit scheduled on every weekday and completed on each of the last n days
   * (n >= 1) has a completion rate of 100 over those n days; n = 30 is the default window.
   */
  lemma DailyHabitDoneEveryDay(h: Habit, ledger: Ledger, today: int, n: int)
    requires n >= 1
    requires forall w | 0 <= w < 7 :: w in h.targetDays
    requires forall d | today - n < d <= today :: d in Entry(ledger, h.id)
    ensures CompletionRate([h], ledger, today, n) == 100
  {
    WindowTotalGrows([h], ledger, today, n);
    assert WeekdayOf(today) in h.targetDays;
    assert AllScheduledDone([h], ledger, today, n) by {
      forall d | today - n < d <= today ensures DayDone([h], ledger, d) {
        assert forall g | g in [h] :: g == h;
      }
    }
    assert !NothingScheduled([h], today, n) by {
      assert h in [h] && WeekdayOf(today) in h.targetDays;
    }
    CompletionRateFull([h], ledger, today, n);
  }
}
