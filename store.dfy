/**
 * The habit store (the useHabits hook): a habit list and a completion ledger
 * that the four mutations replace, and the queries whose loops accumulate
 * the streak, the week's tallies and the completion rate.
 */
module Store {
  import opened Dates
  import opened Sorting
  import opened Habits
  import opened Metrics

  /** One entry of the week view: a day, its completed count and its scheduled count. */
  datatype DayProgress = DayProgress(date: int, completed: nat, total: nat)

  /**
   * The `habits.forEach` pass of getCompletionRate for one day: how many
   * habits are scheduled on the day's weekday, and how many of those have
   * the day recorded.
   */
  method CountDay(habits: seq<Habit>, completions: Ledger, date: int) returns (expected: nat, completed: nat)
    ensures Tally(completed, expected) == DayCounts(habits, completions, date)
    ensures Tally(completed, expected) == TallyOn(habits, completions, date)
  {
    var dayOfWeek := WeekdayOf(date);
    expected, completed := 0, 0;
    var j := 0;
    while j < |habits|
      invariant 0 <= j <= |habits|
      invariant Tally(completed, expected) == DayCounts(habits[..j], completions, date)
    {
      var h := habits[j];
      assert habits[..j + 1][..j] == habits[..j];
      if dayOfWeek in h.targetDays {
        expected := expected + 1;
        if IsCompleted(completions, h.id, date) {
          completed := completed + 1;
        }
      }
      j := j + 1;
    }
    assert habits[..j] == habits;
    DayCountsIsTally(habits, completions, date);
  }

  /**
   * What toggleCompletion promises about the habit it updates: recording the
   * streak of a duplicate-free entry gives that habit the entry's current
   * streak, never lowers its longest streak, and keeps the list's invariants.
   */
  lemma StreakRecorded(hs: seq<Habit>, id: string, entry: seq<int>, today: int)
    requires UniqueIds(hs) && StreaksConsistent(hs) && NoDuplicates(entry)
    ensures var r := RecordStreak(hs, id, Streak(entry, today));
      && UniqueIds(r) && StreaksConsistent(r) && |r| == |hs|
      && forall k | 0 <= k < |r| && r[k].id == id ::
           && IsCurrentStreak(entry, today, r[k].streak)
           && hs[k].longestStreak <= r[k].longestStreak
           && r[k].streak <= r[k].longestStreak
  {
    var streak := Streak(entry, today);
    StreakIsCurrentRun(entry, today);
    RecordStreakKeepsInvariants(hs, id, streak);
    RecordStreakEffect(hs, id, streak);
  }

  /** A ledger whose keys all belong to habits of one list still does for a list with the same ids. */
  lemma SameIdsKeepNoOrphans(before: seq<Habit>, after: seq<Habit>, ledger: Ledger)
    requires |after| == |before| && forall k | 0 <= k < |before| :: after[k].id == before[k].id
    requires forall key | key in ledger :: HasHabit(before, key)
    ensures NoOrphans(after, ledger)
  {
    forall key | key in ledger ensures HasHabit(after, key) {
      var k :| 0 <= k < |before| && before[k].id == key;
      assert after[k].id == key;
    }
  }

  class HabitStore {
    var habits: seq<Habit>
    var completions: Ledger

    /** Ids are unique, each ledger entry lists a day at most once, and cached streaks are consistent. */
    ghost predicate Valid()
      reads this
    {
      UniqueIds(habits) && LedgerWellFormed(completions) && StreaksConsistent(habits)
    }

    /** The state before anything is loaded: no habits, an empty ledger. */
    constructor ()
      ensures habits == [] && completions == map[]
      ensures Valid() && NoOrphans(habits, completions)
    {
      habits := [];
      completions := map[];
    }

    /**
     * addHabit: the caller's fields with the given id and creation instant, no
     * streak and no completed dates, appended after the existing habits.
     */
    method AddHabit(input: HabitInput, id: string, now: int) returns (h: Habit)
      modifies this
      ensures h.id == id && h.createdAt == now
      ensures h.streak == 0 && h.longestStreak == 0 && h.completedDates == []
      ensures h.name == input.name && h.icon == input.icon && h.category == input.category
      ensures h.frequency == input.frequency && h.targetDays == input.targetDays
      ensures h.reminderTime == input.reminderTime && h.color == input.color
      ensures habits == old(habits) + [h]
      ensures completions == old(completions)
      ensures old(Valid()) && !HasHabit(old(habits), id) ==> Valid()
      ensures old(NoOrphans(habits, completions)) ==> NoOrphans(habits, completions)
    {
      h := NewHabit(input, id, now);
      if UniqueIds(habits) && StreaksConsistent(habits) && !HasHabit(habits, id) {
        AppendKeepsInvariants(habits, h);
      }
      var previous := habits;
      habits := habits + [h];
      forall key | key in completions && HasHabit(previous, key) ensures HasHabit(habits, key) {
        var k :| 0 <= k < |previous| && previous[k].id == key;
        assert habits[k] == previous[k];
      }
    }

    /**
     * updateHabit: every habit with the id has the given fields replaced; the
     * rest of the list, its length and its order, and the ledger stay as they were.
     */
    method UpdateHabit(id: string, u: HabitUpdate)
      modifies this
      ensures habits == UpdateWhere(old(habits), id, u)
      ensures completions == old(completions)
      ensures !HasHabit(old(habits), id) ==> habits == old(habits)
      ensures old(Valid()) && (u.id.None? || u.id == Some(id)) && u.streak.None? && u.longestStreak.None? ==>
                Valid()
    {
      if !HasHabit(habits, id) {
        UpdateUnknownIdIsIdentity(habits, id, u);
      }
      if UniqueIds(habits) && StreaksConsistent(habits) && (u.id.None? || u.id == Some(id))
         && u.streak.None? && u.longestStreak.None? {
        UpdateKeepsInvariants(habits, id, u);
      }
      habits := UpdateWhere(habits, id, u);
    }

    /**
     * deleteHabit: the habits with the id are filtered out and the ledger
     * entry of the id is dropped; everything else stays.
     */
    method DeleteHabit(id: string)
      modifies this
      ensures habits == WithoutHabit(old(habits), id)
      ensures completions == old(completions) - {id}
      ensures !HasHabit(habits, id) && id !in completions
      ensures old(Valid()) ==> Valid()
      ensures old(NoOrphans(habits, completions)) ==> NoOrphans(habits, completions)
      ensures forall k | 0 <= k < |old(habits)| && old(habits)[k].id == id && old(Valid()) ::
                habits == old(habits)[..k] + old(habits)[k + 1..]
    {
      if UniqueIds(habits) && StreaksConsistent(habits) {
        WithoutHabitKeepsInvariants(habits, id);
      }
      if NoOrphans(habits, completions) {
        DeleteKeepsNoOrphans(habits, completions, id);
      }
      forall k | 0 <= k < |habits| && habits[k].id == id && UniqueIds(habits)
        ensures WithoutHabit(habits, id) == habits[..k] + habits[k + 1..]
      {
        WithoutHabitRemovesOne(habits, k, id);
      }
      var remaining := WithoutHabit(habits, id);
      assert !HasHabit(remaining, id) by {
        forall k | 0 <= k < |remaining| ensures remaining[k].id != id {
          assert remaining[k] in remaining;
        }
      }
      habits := remaining;
      completions := completions - {id};
    }

    /**
     * calculateStreak: sort the days most recent first; no streak unless the
     * most recent is today or yesterday; otherwise count one-day steps from it
     * until the first gap. On distinct days this is the current streak.
     */
    method CalculateStreak(completionDates: seq<int>, today: int) returns (streak: nat)
      ensures streak == Streak(completionDates, today)
    {
      if |completionDates| == 0 {
        return 0;
      }
      var sorted := SortDescending(completionDates);
      SortedHeadIsLatest(completionDates);
      if sorted[0] != today && sorted[0] != today - 1 {
        return 0;
      }
      streak := 1;
      var i := 1;
      while i < |sorted|
        invariant 1 <= i <= |sorted|
        invariant streak == i
        invariant forall k | 1 <= k < i :: sorted[k - 1] - sorted[k] == 1
        decreases |sorted| - i
      {
        if sorted[i - 1] - sorted[i] == 1 {
          streak := streak + 1;
        } else {
          break;
        }
        i := i + 1;
      }
      LeadingRunIsFirstGap(sorted, i);
    }

    /**
     * toggleCompletion: the day is dropped from the habit's ledger entry if it
     * is there and appended otherwise (even for an id no habit has); when a
     * habit has the id, its streak is recomputed from the new entry and its
     * longest streak raised to it.
     */
    method ToggleCompletion(habitId: string, date: int, today: int)
      modifies this
      ensures completions == old(completions)[habitId := ToggledEntry(Entry(old(completions), habitId), date)]
      ensures habits == RecordStreak(old(habits), habitId, Streak(completions[habitId], today))
      ensures IsCompleted(completions, habitId, date) <==> !IsCompleted(old(completions), habitId, date)
      ensures old(Valid()) ==> Valid()
      ensures old(NoOrphans(habits, completions)) && HasHabit(old(habits), habitId) ==> NoOrphans(habits, completions)
      ensures old(Valid()) ==> forall k | 0 <= k < |habits| && habits[k].id == habitId ::
                && IsCurrentStreak(completions[habitId], today, habits[k].streak)
                && old(habits)[k].longestStreak <= habits[k].longestStreak
                && habits[k].streak <= habits[k].longestStreak
    {
      ghost var hadNoOrphans := NoOrphans(habits, completions);
      var newHabitCompletions := ToggleEntry(habitId, date);
      ghost var previous := habits;
      UpdateStreak(habitId, newHabitCompletions, today);
      if hadNoOrphans && HasHabit(previous, habitId) {
        SameIdsKeepNoOrphans(previous, habits, completions);
      }
    }

    /** The first half of toggleCompletion: drop the day from the habit's entry if it is there, else append it. */
    method ToggleEntry(habitId: string, date: int) returns (entry: seq<int>)
      modifies this
      ensures entry == ToggledEntry(Entry(old(completions), habitId), date)
      ensures completions == old(completions)[habitId := entry]
      ensures habits == old(habits)
      ensures old(LedgerWellFormed(completions)) ==> LedgerWellFormed(completions) && NoDuplicates(entry)
    {
      var habitCompletions := Entry(completions, habitId);
      if date in habitCompletions {
        entry := Remove(habitCompletions, date);
      } else {
        entry := habitCompletions + [date];
      }
      if LedgerWellFormed(completions) {
        ToggledEntryKeepsNoDuplicates(habitCompletions, date);
      }
      completions := completions[habitId := entry];
    }

    /**
     * The second half of toggleCompletion: when a habit has the id, set its
     * streak from the new entry and raise its longest streak to it.
     */
    method UpdateStreak(habitId: string, entry: seq<int>, today: int)
      modifies this
      ensures habits == RecordStreak(old(habits), habitId, Streak(entry, today))
      ensures completions == old(completions)
      ensures |habits| == |old(habits)| && forall k | 0 <= k < |habits| :: habits[k].id == old(habits)[k].id
      ensures old(UniqueIds(habits) && StreaksConsistent(habits)) && NoDuplicates(entry) ==>
                && UniqueIds(habits) && StreaksConsistent(habits)
                && forall k | 0 <= k < |habits| && habits[k].id == habitId ::
                     && IsCurrentStreak(entry, today, habits[k].streak)
                     && old(habits)[k].longestStreak <= habits[k].longestStreak
                     && habits[k].streak <= habits[k].longestStreak
    {
      ghost var previous := habits;
      var found := FindHabit(habits, habitId);
      if found.Some? {
        var streak := CalculateStreak(entry, today);
        UpdateHabit(habitId, StreakUpdate(streak, Max(habits[found.value].longestStreak, streak)));
      }
      if UniqueIds(previous) && StreaksConsistent(previous) && NoDuplicates(entry) {
        StreakRecorded(previous, habitId, entry, today);
      }
      RecordStreakKeepsIds(previous, habitId, Streak(entry, today));
    }

    /**
     * getWeekProgress: the seven days ending today, oldest first, each with the
     * habits scheduled on its weekday and how many of them have the day recorded.
     */
    method WeekProgress(today: int) returns (days: seq<DayProgress>)
      ensures |days| == 7
      ensures forall k | 0 <= k < 7 ::
                && days[k].date == today - 6 + k
                && days[k].completed <= days[k].total
                && Tally(days[k].completed, days[k].total) == TallyOn(habits, completions, today - 6 + k)
      ensures days[6].date == today
      ensures days[6].total == TodayProgress(habits, completions, today).total
      ensures days[6].completed == TodayProgress(habits, completions, today).completed
    {
      days := [];
      var i := 6;
      while i >= 0
        invariant -1 <= i <= 6
        invariant |days| == 6 - i
        invariant forall k | 0 <= k < |days| ::
                    && days[k].date == today - 6 + k
                    && Tally(days[k].completed, days[k].total) == TallyOn(habits, completions, today - 6 + k)
      {
        var date := today - i;
        var dayHabits := ScheduledOn(habits, WeekdayOf(date));
        var completed := CountCompleted(dayHabits, completions, date);
        days := days + [DayProgress(date, completed, |dayHabits|)];
        i := i - 1;
      }
    }

    /**
     * getCompletionRate(n): over the n days ending today, count every scheduled
     * (habit, day) pair and every such pair with the day recorded, then round
     * the ratio to a percentage; 0 when nothing was scheduled.
     */
    method CompletionRate(today: int, n: int) returns (rate: nat)
      ensures rate == Metrics.CompletionRate(habits, completions, today, n)
      ensures rate <= 100
    {
      var totalExpected, totalCompleted := 0, 0;
      var i := 0;
      while i < n
        invariant 0 <= i && (i <= n || i == 0)
        invariant totalExpected == WindowTally(habits, completions, today, i).total
        invariant totalCompleted == WindowTally(habits, completions, today, i).completed
        decreases n - i
      {
        var expected, completed := CountDay(habits, completions, today - i);
        totalExpected := totalExpected + expected;
        totalCompleted := totalCompleted + completed;
        i := i + 1;
      }
      assert Tally(totalCompleted, totalExpected) == WindowTally(habits, completions, today, n) by {
        if n > 0 {
          assert i == n;
        }
      }
      rate := if totalExpected > 0 then RoundedPercent(totalCompleted, totalExpected) else 0;
    }
  }
}
