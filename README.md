# Habit tracker core in Dafny

This project models the logic of a personal habit-tracking application (the
`useHabits` hook, the add-habit dialog and the calendar view) and proves
properties of that model.

- Users define habits. Each habit has a name, an icon, a category, the
  weekdays it is scheduled on and a reminder time.
- Users mark the days on which a habit was done.
- From those marks the application derives:
  - each habit's current and longest streak;
  - today's progress;
  - the last seven days' tallies;
  - a completion rate over a window of recent days;
  - a per-day summary for the calendar.

Modules, one per file:

- `Dates` (`dates.dfy`): the proleptic Gregorian calendar.
  - Days are integers counted from 1970-01-01 (day 0, a Thursday).
  - Weekdays are numbered the way `Date.getDay` numbers them (0 = Sunday).
  - The module gives month lengths and day numbers of dates, and adds months to a (year, month) pair.
- `Sorting` (`sorting.dfy`): sortedness, duplicate-freedom, and insertion sorts in both directions.
  - Each sort is proved to return a sorted permutation.
  - An ascending sorted permutation is proved unique.
  - The module also defines removal of every occurrence of a value.
- `Habits` (`habits.dfy`): the data model and the pure list operations of the store.
  - The data model is the habit record, the caller's input to `addHabit`, the partial update of `updateHabit` and the completion ledger.
  - The list operations are find, map-update, filter-out and the streak update of `toggleCompletion`.
  - The module also states the store's invariants: unique ids, `0 <= streak <= longestStreak`, duplicate-free ledger entries and no orphaned ledger keys.
- `Metrics` (`metrics.dfy`): the derived queries, as functions of the habit list, the ledger and the current day.
  - They are the streak, one day's tally, today's progress, the rolling window and the rounded percentage.
  - Each query is related to an independent description, for example "the current streak" as a predicate on the set of completed days.
- `Store` (`store.dfy`): the hook as a class `HabitStore`.
  - Its fields are `habits` and `completions`, and its four mutations reassign them.
  - The queries whose source is a loop are methods with loop invariants. `CalculateStreak` and `CompletionRate` are each proved equal to their function in `Metrics`, and each of the seven entries `WeekProgress` returns is proved equal to that day's `Metrics.TallyOn`.
- `AddHabitForm` (`add_habit_form.dfy`): the dialog's form state as a class `Form`.
  - `toggleDay` keeps the weekday selection sorted.
  - The submission step trims the name, rejects a blank one, builds the new habit's fields and resets the form.
  - `String.prototype.trim` is modelled on the full ECMAScript white-space and line-terminator set.
- `Calendar` (`calendar.dfy`): the calendar view.
  - The `YYYY-MM-DD` key of a grid cell round-trips through a parser.
  - The month layout: how many days the month has, and the weekday of its first day.
  - Each cell's completion summary.
  - Month navigation, as a class `CalendarState`.
  - The Date constructor's two-digit-year rule, which the navigation code runs into.

Representation choices:

- A date string in the ledger is represented by its day number.
  - `Calendar.DateStringRoundTrip` and `Calendar.DateStringInjective` show that the keys the views build identify dates one-to-one.
  - `Dates.DayNumberInjective` shows the same for day numbers.
  - So comparing day numbers is the same as comparing keys.
- "Now" is a parameter (`today`, a day number; `now`, the creation instant).
  - "Yesterday" is `today - 1`.
  - The id that `Date.now().toString()` would produce is also a parameter (`id`).
- The percentage `Math.round((completed / total) * 100)` is modelled as the exact round-half-up that the floating-point expression approximates: `(200c + t) / (2t)` on the non-negative integers c and t.
- `Metrics.RoundedPercent` characterises the result: it is the unique `p` with `2t·p <= 200c + t < 2t·(p + 1)`.

Behaviour worth knowing:

- Days D-1 and D-3 completed, with D and D-2 not, give streak 1, because yesterday anchors a run of length one (`Metrics.StreakFromYesterdayAlone`).
- Toggling the same day twice restores the completed days and the streak:
  - `Habits.ToggleTwiceSameDays`, `Metrics.ToggleTwiceRestoresStreak`;
  - the entry itself, order included, when the day was not recorded: `Habits.ToggleTwiceRestoresEntry`.
- Toggling twice does not restore `longestStreak`. The first toggle may raise it, and the second never lowers it.
- `toggleCompletion` changes the ledger even when no habit has the id.
  - The model does the same.
  - So the "no orphaned ledger keys" invariant is kept only when the id exists.

## Model

| member | source | states |
|---|---|---|
| Habits.Merge | src/hooks/useHabits.ts:56 | the spread `{ ...h, ...updates }`: an update without an id keeps the habit's id, and an empty update changes nothing |
| Habits.NewHabit | src/hooks/useHabits.ts:43-50 | addHabit's new record: the caller's seven fields unchanged, the given id and creation instant, streaks 0 and no completed dates |
| Habits.Entry | src/hooks/useHabits.ts:68 | `completions[id] \|\| []`; an entry of a well-formed ledger has no repeated day |
| Habits.RecordStreak | src/hooks/useHabits.ts:84-91 | toggleCompletion's streak update of the list: same length, and the list unchanged when no habit has the id (`Habits.RecordStreakEffect` gives the new fields) |
| Habits.FindHabit | src/hooks/useHabits.ts:85 | `habits.find` by id: None exactly when no habit has the id, otherwise the index of the first habit with it |
| Habits.UpdateWhere | src/hooks/useHabits.ts:55-58 | the mapped list has the same length; position k is the merge of habit k with the update when its id matches, and habit k unchanged otherwise |
| Habits.WithoutHabit | src/hooks/useHabits.ts:60-61 | the filtered list holds exactly the habits of the list whose id differs, and is no longer |
| Habits.WithoutHabitAppend | src/hooks/useHabits.ts:61 | filtering distributes over concatenation, so the relative order of the remaining habits is kept |
| Habits.WithoutHabitAbsent | src/hooks/useHabits.ts:61 | deleting an id no habit has leaves the list as it was |
| Habits.WithoutHabitRemovesOne | src/hooks/useHabits.ts:61 | with unique ids, deleting habit k's id removes exactly position k |
| Habits.ToggledEntry | src/hooks/useHabits.ts:68-76 | after a toggle the day is recorded exactly when it was not before, and every other day is recorded exactly as before |
| Habits.ToggledEntryKeepsNoDuplicates | src/hooks/useHabits.ts:72-76 | toggling keeps an entry free of repeated days |
| Habits.ToggleTwiceSameDays | src/hooks/useHabits.ts:67-82 | toggling the same day twice restores the set of recorded days |
| Habits.ToggleTwiceRestoresEntry | src/hooks/useHabits.ts:67-82 | toggling an unrecorded day twice restores the entry exactly |
| Habits.RecordStreakEffect | src/hooks/useHabits.ts:84-91 | with unique ids: habits with other ids are unchanged; each habit with the id gets the new streak and the larger of its longest streak and the new streak, all other fields kept |
| Habits.RecordStreakUsesFirstMatch | src/hooks/useHabits.ts:85-90 | with ids that may repeat: every habit with the id gets the larger of the first such habit's longest streak and the new streak, as `find` then `map` do |
| Habits.RecordStreakKeepsIds | src/hooks/useHabits.ts:84-91 | the streak update changes no id and not the length of the list |
| Habits.RecordStreakKeepsInvariants | src/hooks/useHabits.ts:84-91 | the streak update keeps ids unique and `0 <= streak <= longestStreak` for every habit |
| Habits.AppendKeepsInvariants | src/hooks/useHabits.ts:42-52 | appending a habit with an unused id and consistent streaks keeps ids unique and streaks consistent |
| Habits.UpdateKeepsInvariants | src/hooks/useHabits.ts:55-58 | an update that changes neither the id nor the streak fields keeps the invariants |
| Habits.UpdateUnknownIdIsIdentity | src/hooks/useHabits.ts:56 | updating an id no habit has changes nothing |
| Habits.DropOneKeepsInvariants | src/hooks/useHabits.ts:61 | removing one position keeps ids unique and streaks consistent |
| Habits.WithoutHabitKeepsInvariants | src/hooks/useHabits.ts:61 | deleting keeps ids unique and streaks consistent |
| Habits.DeleteKeepsNoOrphans | src/hooks/useHabits.ts:60-64 | deleting a habit together with its ledger entry leaves every remaining ledger key owned by a habit |
| Metrics.Streak | src/hooks/useHabits.ts:99-123 | calculateStreak (most recent day first, anchored at today or yesterday, one-day steps); never more than the number of recorded days; `Metrics.StreakIsCurrentRun` ties it to its meaning |
| Metrics.IsCurrentStreak | src/hooks/useHabits.ts:99-123 | the independent meaning of a streak of n: 0 unless the latest day is today or yesterday, otherwise n consecutive recorded days end at it and the day before them is not; a positive streak needs today or yesterday recorded |
| Metrics.LeadingRun | src/hooks/useHabits.ts:109-120 | the run counted from the head has length between 1 and the list length; every step inside it is one day, and the step after it is not |
| Metrics.LeadingRunIsFirstGap | src/hooks/useHabits.ts:110-120 | any i that has one-day steps before it and a gap (or the end) at it is the run length, so the loop's exit point is the run |
| Metrics.Latest | src/hooks/useHabits.ts:102 | the most recent day is a member of the list and not earlier than any member |
| Metrics.SortedHeadIsLatest | src/hooks/useHabits.ts:102 | sorting most recent first puts the latest day at the head |
| Metrics.LeadingRunValues | src/hooks/useHabits.ts:109-120 | the j-th day of the run is the head minus j days |
| Metrics.StreakPositiveIffAnchored | src/hooks/useHabits.ts:100-107 | the streak is positive exactly when some day is recorded and the most recent one is today or yesterday |
| Metrics.LeadingRunDaysPresent | src/hooks/useHabits.ts:109-120 | every day from the head back to the run's length is in the list |
| Metrics.DayBeforeRunAbsent | src/hooks/useHabits.ts:109-120 | in a strictly descending list the day just before the run does not occur |
| Metrics.SortedRunEndsAtHead | src/hooks/useHabits.ts:102-120 | the run at the head of the sorted days is a maximal run of consecutive days ending at the head |
| Metrics.SameRuns | src/hooks/useHabits.ts:102 | sorting does not change which runs of consecutive days a list has |
| Metrics.AnchoredRunIsCurrent | src/hooks/useHabits.ts:102-122 | when the most recent day is today or yesterday, the run of the sorted days is the current streak of the unsorted list |
| Metrics.StreakIsCurrentRun | src/hooks/useHabits.ts:99-123 | on duplicate-free days, calculateStreak's result is the current streak: 0 unless the latest day is today or yesterday, otherwise n consecutive recorded days end there and the day before them is not recorded |
| Metrics.CurrentStreakUnique | src/hooks/useHabits.ts:99-123 | at most one number is the current streak of a list of days |
| Metrics.StreakDependsOnlyOnDays | src/hooks/useHabits.ts:102 | two duplicate-free lists with the same members have the same streak, whatever their order |
| Metrics.ToggleTwiceRestoresStreak | src/hooks/useHabits.ts:67-92 | toggling the same day twice gives back the entry's streak |
| Metrics.StreakOfThree | src/hooks/useHabits.ts:99-123 | on distinct days, with no day after today recorded: today, yesterday and the day before recorded, with the day before that not recorded, give streak 3 |
| Metrics.ThreeDayRun | src/hooks/useHabits.ts:99-123 | with no day after today recorded and the same days present and absent, 3 is the current streak |
| Metrics.StreakFromYesterdayAlone | src/hooks/useHabits.ts:104-109 | on distinct days, with no day after today recorded: yesterday recorded, with today and the day before yesterday not recorded, gives streak 1 |
| Metrics.YesterdayRun | src/hooks/useHabits.ts:104-109 | with no day after today recorded and the same days present and absent, 1 is the current streak |
| Metrics.ScheduledOn | src/hooks/useHabits.ts:127-130 | the weekday filter, in list order; never longer than the list |
| Metrics.ScheduledOnMembers | src/hooks/useHabits.ts:127-130 | the weekday filter keeps exactly the habits scheduled on that weekday |
| Metrics.IsCompleted | src/hooks/useHabits.ts:95-97 | a day counts as completed exactly when the ledger has an entry for the id and the entry holds the day; a missing entry holds none |
| Metrics.CountCompleted | src/hooks/useHabits.ts:132 | the number of habits of the list with the day recorded; never more than the list's length |
| Metrics.CountCompletedAll | src/hooks/useHabits.ts:132 | the completed count equals the number of habits exactly when every habit has the day recorded |
| Metrics.TallyOn | src/hooks/useHabits.ts:127-135 | a day's completed count never exceeds its scheduled count, which never exceeds the number of habits |
| Metrics.TallyEmptyIffUnscheduled | src/hooks/useHabits.ts:127-135 | a day's scheduled count is 0 exactly when no habit is scheduled on its weekday |
| Metrics.TallyCompleteIffAllDone | src/hooks/useHabits.ts:127-135 | a day's completed count reaches its scheduled count exactly when every habit scheduled that day has it recorded |
| Metrics.DayCounts | src/hooks/useHabits.ts:171-178 | the per-habit loop over one day: completed never exceeds expected, which never exceeds the number of habits |
| Metrics.DayCountsIsTally | src/hooks/useHabits.ts:171-178 | counting habit by habit, as the completion-rate loop does, gives the same tally as filtering and then counting |
| Metrics.DayCountsCompleteIffDone | src/hooks/useHabits.ts:171-178 | the per-habit count is complete exactly when every habit scheduled that day has it recorded |
| Metrics.RoundedPercent | src/hooks/useHabits.ts:137 | Math.round of 100·c/t: the p with 2t·p <= 200c + t < 2t·(p + 1); at most 100 when c <= t, exactly 100 when c = t, 0 when c = 0 |
| Metrics.RoundingFacts | src/hooks/useHabits.ts:137 | the rounding formula meets that characterisation and those bounds |
| Metrics.TodayProgress | src/hooks/useHabits.ts:125-139 | completed <= total; percentage <= 100; total is 0 exactly when nothing is scheduled on today's weekday, and then completed and percentage are 0; otherwise percentage is the rounded ratio |
| Metrics.WindowCompleteIffAllDone | src/hooks/useHabits.ts:162-182 | over the window, the completed count reaches the expected count exactly when every scheduled (habit, day) pair has the day recorded |
| Metrics.WindowCompleteStep | src/hooks/useHabits.ts:166-179 | the induction step of that equivalence, from n - 1 days to n |
| Metrics.WindowTally | src/hooks/useHabits.ts:163-179 | the two counters the loop accumulates over the n days ending today; the completed count never exceeds the expected count |
| Metrics.WindowEmptyIffUnscheduled | src/hooks/useHabits.ts:163-181 | the window's expected count is 0 exactly when no habit is scheduled on any of its days |
| Metrics.NothingScheduledStep | src/hooks/useHabits.ts:166-172 | a window schedules nothing exactly when its newer days and its oldest day schedule nothing |
| Metrics.CompletionRate | src/hooks/useHabits.ts:162-182 | the rate is at most 100, and 0 when no habit is scheduled on any day of the window |
| Metrics.CompletionRateFull | src/hooks/useHabits.ts:162-182 | when some habit is scheduled in the window and every scheduled pair is done, the rate is 100 |
| Metrics.WindowTotalGrows | src/hooks/useHabits.ts:166-179 | a window of at least one day expects at least as much as today alone |
| Metrics.DailyHabitDoneEveryDay | src/hooks/useHabits.ts:162-182 | a single habit scheduled every weekday and recorded on every day of the window has rate 100 |
| Store.CountDay | src/hooks/useHabits.ts:171-178 | the loop's expected and completed counts for one day equal the day's tally |
| Store.StreakRecorded | src/hooks/useHabits.ts:84-91 | with unique ids: recording the streak of a duplicate-free entry gives every habit with the id the entry's current streak, never lowers its longest streak, and keeps the invariants |
| Store.SameIdsKeepNoOrphans | src/hooks/useHabits.ts:84-91 | a list with the same ids as before owns the same ledger keys |
| Store.HabitStore.constructor | src/hooks/useHabits.ts:9-10 | the store starts with no habits and an empty ledger, which satisfies the invariants |
| Store.HabitStore.AddHabit | src/hooks/useHabits.ts:42-53 | the new habit carries the caller's fields, the given id and creation instant, streak 0, longest streak 0 and no completed dates; it is appended and the ledger is unchanged; the invariants are kept when the id is fresh |
| Store.HabitStore.UpdateHabit | src/hooks/useHabits.ts:55-58 | the habit list becomes the mapped list and the ledger is unchanged; an unknown id changes nothing; the invariants are kept when neither the id nor the streak fields are changed |
| Store.HabitStore.DeleteHabit | src/hooks/useHabits.ts:60-65 | the habits with the id are filtered out and the id's ledger entry is dropped; afterwards neither holds the id; the invariants and the absence of orphans are kept; with unique ids exactly that one position is removed |
| Store.HabitStore.CalculateStreak | src/hooks/useHabits.ts:99-123 | the loop returns the streak function's value, which is the current streak on duplicate-free days |
| Store.HabitStore.ToggleCompletion | src/hooks/useHabits.ts:67-93 | the entry is toggled (created if missing) and the day's completion flips; in a valid store, each habit with the id gets the current streak of the new entry, and its longest streak never goes down; the invariants are kept |
| Store.HabitStore.ToggleEntry | src/hooks/useHabits.ts:68-82 | the ledger entry of the id becomes the toggled entry, nothing else changes, and ledger entries stay duplicate-free |
| Store.HabitStore.UpdateStreak | src/hooks/useHabits.ts:84-92 | with unique ids: only the habits with the id change: their streak becomes the entry's streak and their longest streak the larger of the old one and the new streak; ids and invariants are kept |
| Store.HabitStore.WeekProgress | src/hooks/useHabits.ts:141-160 | seven entries, oldest first, for today - 6 .. today; each holds that day's scheduled and completed counts; the last entry agrees with today's progress |
| Store.HabitStore.CompletionRate | src/hooks/useHabits.ts:162-182 | the loop's rate equals the completion-rate function over the n days ending today, and is at most 100 |
| AddHabitForm.AllDaysValid | src/components/habits/AddHabitDialog.tsx:40 | the default selection, every weekday, is sorted, duplicate-free and within the week |
| AddHabitForm.ToggledDays | src/components/habits/AddHabitDialog.tsx:68-74 | the day is in the new selection exactly when it was not before, and every other day is kept as it was |
| AddHabitForm.ToggledDaysValid | src/components/habits/AddHabitDialog.tsx:68-74 | toggling a weekday keeps the selection sorted, duplicate-free and within 0..6 |
| AddHabitForm.ToggleDayTwiceRestores | src/components/habits/AddHabitDialog.tsx:68-74 | toggling a weekday twice gives back the same selection |
| AddHabitForm.LeadingSpace | src/components/habits/AddHabitDialog.tsx:47 | the count of leading white space: every counted character is white space, and the next one is not |
| AddHabitForm.TrailingSpace | src/components/habits/AddHabitDialog.tsx:47 | the same count at the end of the string |
| AddHabitForm.Trim | src/components/habits/AddHabitDialog.tsx:47-50 | `String.prototype.trim`: never longer than the string; `AddHabitForm.TrimKeepsCore` and the lemmas after it say what it keeps |
| AddHabitForm.TrimKeepsCore | src/components/habits/AddHabitDialog.tsx:47-50 | trim keeps a contiguous slice; only white space lies before and after it; the slice neither starts nor ends with white space |
| AddHabitForm.TrimIdempotent | src/components/habits/AddHabitDialog.tsx:47-50 | trimming a trimmed name changes nothing |
| AddHabitForm.BlankIffAllWhiteSpace | src/components/habits/AddHabitDialog.tsx:47 | the trimmed name is empty exactly when the name is white space alone |
| AddHabitForm.CategoryColor | src/data/mockData.ts:27-35 | `categoryColors[category]`: every category's colour is an `hsl(...)` colour |
| AddHabitForm.Submission | src/components/habits/AddHabitDialog.tsx:45-57 | nothing is submitted exactly when the name is white space alone; otherwise the habit has the trimmed, non-empty name, the chosen icon, category, days and reminder, daily frequency and the category's colour |
| AddHabitForm.SubmissionNameStable | src/components/habits/AddHabitDialog.tsx:47-50 | the submitted name is non-empty and already trimmed |
| AddHabitForm.Form.constructor | src/components/habits/AddHabitDialog.tsx:37-41 | the form opens at its defaults, with a valid day selection |
| AddHabitForm.Form.ToggleDay | src/components/habits/AddHabitDialog.tsx:68-74 | only the selection changes, to the toggled selection, and it stays valid |
| AddHabitForm.Form.Submit | src/components/habits/AddHabitDialog.tsx:45-66 | returns the submission of the current fields; a blank name changes nothing; otherwise the form is reset to its defaults |
| Calendar.NatToString | src/components/views/CalendarView.tsx:42-44 | String(n) is a non-empty run of digits, one digit long exactly when n < 10 |
| Calendar.NatToStringRoundTrip | src/components/views/CalendarView.tsx:42-44 | reading the digits back gives n |
| Calendar.IntToString | src/components/views/CalendarView.tsx:42-44 | `${year}` for any year: non-empty, and starting with a minus sign exactly when the year is negative |
| Calendar.PadStart2 | src/components/views/CalendarView.tsx:43-44 | padStart(2, '0'): length 2 for shorter strings, the string itself otherwise (`Calendar.PadStart2Pads` adds that a short string is kept at the end behind zeros) |
| Calendar.PadStart2Pads | src/components/views/CalendarView.tsx:43-44 | the string is kept as the end of the result, and only zeros are put before it |
| Calendar.DateString | src/components/views/CalendarView.tsx:41-45 | getDateString: the key starts with the year as `${year}` writes it, followed by a dash, and has at least six more characters (`Calendar.DateStringRoundTrip` reads it back) |
| Calendar.ParseDateString | src/components/views/CalendarView.tsx:41-45 | the reader that is DateString's partner: a parsed month index is at least -1 and a parsed day is non-negative, and a negative year comes only from a leading minus sign |
| Calendar.PadStart2Digits | src/components/views/CalendarView.tsx:43-44 | the padded month or day is all digits and reads back as the number |
| Calendar.DateStringRoundTrip | src/components/views/CalendarView.tsx:41-45 | the key of year y, month m and day d parses back to (y, m, d), for every year, negative years included |
| Calendar.DateStringInjective | src/components/views/CalendarView.tsx:41-45 | different (year, month, day) triples get different keys |
| Calendar.DateStringIsIso | src/components/views/CalendarView.tsx:41-45 | for four-digit years and days 1 to 31, the key has the ISO shape: ten characters with dashes at positions 4 and 7 |
| Calendar.GetDaysInMonth | src/components/views/CalendarView.tsx:16-25 | the month has 28 to 31 days, and the day after its last day is the first day of the next month |
| Calendar.GridColumnIsWeekday | src/components/views/CalendarView.tsx:103-108 | the cell of day d, after the month's leading blanks, sits in the column of that date's weekday |
| Calendar.CompletionForDate | src/components/views/CalendarView.tsx:47-55 | null exactly when no habit is scheduled on the date's weekday; otherwise the same tally and percentage as today's progress for that day, with a positive total |
| Calendar.JsYear | src/components/views/CalendarView.tsx:30 | the Date constructor's year rule: exactly the years 0..99 are changed, each moved forward by 1900, so the result is never a year from 0 to 99 |
| Calendar.DateConstructorMonth | src/components/views/CalendarView.tsx:29-35 | `new Date(y, m + k)` as written: a month of the year JsYear(y) shifted by k months |
| Calendar.DateConstructorSkipsCentury | src/components/views/CalendarView.tsx:29-35 | from January of year 100, stepping back and then forward lands in January 2000 |
| Calendar.CalendarState.constructor | src/components/views/CalendarView.tsx:13-14 | the view opens on the given month with that day's key selected |
| Calendar.CalendarState.PrevMonth | src/components/views/CalendarView.tsx:29-31 | the month shown becomes the previous one, across the year boundary if need be; the selection is kept |
| Calendar.CalendarState.NextMonth | src/components/views/CalendarView.tsx:33-35 | the month shown becomes the next one; the selection is kept |
| Calendar.CalendarState.SelectDay | src/components/views/CalendarView.tsx:107-117 | the selected key becomes the clicked day's key, and it parses back to the month shown and that day |
| Dates.DaysInMonth | src/components/views/CalendarView.tsx:19-21 | a month has 28 to 31 days; February has 29 exactly in leap years |
| Dates.AddMonths | src/components/views/CalendarView.tsx:29-35 | the result month is in 0..11, and the absolute month index moves by exactly k |
| Dates.AddMonthsInverse | src/components/views/CalendarView.tsx:29-35 | stepping k months forward and then k months back returns to the same (year, month) |
| Dates.AddMonthsYearBoundary | src/components/views/CalendarView.tsx:29-35 | December steps forward to January of the next year, and January steps back to December of the previous year |
| Dates.NextMonthFollowsLastDay | src/components/views/CalendarView.tsx:20-21 | the day after the last day of a month is the first day of the next month |
| Dates.DayNumberInjective | src/hooks/useHabits.ts:102-113 | distinct valid dates have distinct day numbers, so comparing days is comparing dates |
| Dates.KnownMonday | src/components/views/CalendarView.tsx:22 | anchors the weekday numbering: 2024-01-01 is day 19723, a Monday |
| Sorting.SortDescending | src/hooks/useHabits.ts:102 | the sorted days are in descending order and are a permutation of the input |
| Sorting.SortAscending | src/components/habits/AddHabitDialog.tsx:72 | the sorted weekdays are in ascending order and are a permutation of the input |
| Sorting.Remove | src/hooks/useHabits.ts:73 | filtering out a value removes all of its occurrences and nothing else, counted with multiplicity |
| Sorting.RemoveMembers | src/hooks/useHabits.ts:73 | after the filter, a value is present exactly when it was present before and differs from the removed one |
| Sorting.RemoveKeepsSortedAscending | src/components/habits/AddHabitDialog.tsx:70 | filtering a sorted selection keeps it sorted |
| Sorting.SortedAscendingUnique | src/components/habits/AddHabitDialog.tsx:72 | two ascending sequences with the same elements are equal |

## Left out

- Persistence is not modelled. The source writes each new list to `localStorage` and loads it on mount, along with the `isLoading` flag and the default habits (src/hooks/useHabits.ts:13-40). The store's fields stand for the in-memory state.
- The clock is not modelled. The current day and instant are parameters.
- Time zones are not modelled.
  - The today, week and rate queries take the date key from `toISOString` (UTC) and the weekday from `getDay` (local time) (src/hooks/useHabits.ts:125-128, 146-148, 168-169).
  - At 08:00 local time in UTC+9, for example, the key is yesterday's UTC date while the weekday is today's local one.
  - `getCompletionForDate` parses the key as UTC midnight and then asks for the local weekday.
  - The model uses one day numbering for all of these, so it does not capture the off-by-one-day effects these mixes cause in any time zone other than UTC.
- Metrics.RoundedPercent: exact round-half-up, not the floating-point `Math.round((c / t) * 100)` of the source. The two differ where the floating-point product falls just below a half. For example, for 23 of 40, `(23 / 40) * 100` is 57.49999999999999, so the source shows 57 where the model gives 58. The same happens for 69 of 120 (four daily habits over the default 30-day window).
- Floating point is not modelled. Timestamp differences divided by 86400000 become differences of day numbers, and the percentages use exact integer rounding.
- Store.HabitStore.AddHabit: the id is a parameter in place of `Date.now().toString()`.
  - The invariants are promised only when that id is unused.
  - The source does not check this, and two habits added within one millisecond would share an id.
- Shared ids: the longest-streak facts of `Habits.RecordStreakEffect`, `Store.StreakRecorded`, `Store.HabitStore.ToggleCompletion` and `Store.HabitStore.UpdateStreak` are promised only with unique ids. With a shared id the source takes the first habit found (src/hooks/useHabits.ts:85) and gives its `Math.max` to every habit with the id (:90). So a later habit with longest streak 0 can get 10 from the first, or one with 10 can drop to the new streak. `Habits.RecordStreakUsesFirstMatch` states this behaviour.
- Store.HabitStore.CompletionRate: `n` is an explicit parameter. The source's default `days = 30` (src/hooks/useHabits.ts:162) is not modelled.
- Store.HabitStore.CalculateStreak: the source's unused `habitId` parameter is dropped.
- Store.HabitStore.ToggleCompletion: the "no orphaned ledger keys" invariant is promised only when a habit has the id. The source also records completions for unknown ids.
- Store.HabitStore.ToggleCompletion: `longestStreak` is not restored by a second toggle. It is a historical maximum.
- AddHabitForm.ToggledDays: `.sort()` with no comparator compares the weekday numbers as strings. For the single digits 0..6 this is numeric order, which the model uses.
- The dialog's `onClose` callback, its plain field setters and its icon and category pickers are left out. They are plain assignments of the rendered form.
- `formatMonth` and all JSX rendering are left out. They are presentation and involve no logic.
- Calendar.CalendarState.constructor: the initial selection is built with `DateString`, while the source uses the date part of `toISOString` (src/components/views/CalendarView.tsx:14). The two keys agree only for four-digit years, and only when the local date equals the UTC date.
- Calendar.DateStringIsIso: the key has the ISO shape only for four-digit years.
  - For other years, `String(year)` is not padded, so the key is not `toISOString`'s form.
  - The round trip and injectivity still hold for every year.
- Calendar.GetDaysInMonth: the month length and first weekday are computed for the year as given.
  - The source calls `new Date(year, month, 1)`, which reads years 0..99 as 1900..1999.
  - For those years its starting weekday is that of the 1900s month. See the finding below.
- Calendar.CalendarState.PrevMonth: follows the intended month step (`Dates.AddMonths`), not the source's `new Date(year, month - 1)`. They differ when the year shown is 0..99. For example, from January 99 the source goes to December 1998, and the model to December 98.
- Calendar.CalendarState.NextMonth: follows the intended month step (`Dates.AddMonths`), not the source's `new Date(year, month + 1)`. For example, from December 99 the source goes to January 2000, and the model to January 100. `Calendar.DateConstructorMonth` models the step as written.
- The views other than the calendar (today, statistics, insights, profile), the habit card and the navigation bar are not part of this model.

## Findings

| source | as written | input that shows it | evidently intended | confidence | as-written member | corrected member |
|---|---|---|---|---|---|---|
| src/components/views/CalendarView.tsx:29-35 | `new Date(currentDate.getFullYear(), currentDate.getMonth() ± 1)`: the Date constructor reads years 0..99 as 1900..1999 | showing January of year 100: previous month gives December 99, and next month then gives January 2000 | previous and next month are inverse steps: January 100 → December 99 → January 100 | high; not executed | Calendar.DateConstructorSkipsCentury | Calendar.CalendarState.PrevMonth, Calendar.CalendarState.NextMonth, Dates.AddMonthsInverse |
