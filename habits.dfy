/**
 * The habit record, the completion ledger, and the pure list operations the
 * store performs on them (the spread, map and filter expressions of useHabits).
 */
module Habits {
  import opened Sorting

  datatype Option<T> = None | Some(value: T)

  datatype Category = Health | Fitness | Mindfulness | Productivity | Learning | Social | Other

  datatype Frequency = Daily | Weekly | Custom

  /**
   * A habit. Dates (completedDates) are day numbers; createdAt is the creation
   * instant in milliseconds. targetDays holds weekday indices (0 = Sunday).
   */
  datatype Habit = Habit(
    id: string,
    name: string,
    icon: string,
    category: Category,
    frequency: Frequency,
    targetDays: seq<int>,
    reminderTime: Option<string>,
    color: string,
    createdAt: int,
    streak: int,
    longestStreak: int,
    completedDates: seq<int>)

  /** What the caller of addHabit supplies: a habit without id, createdAt, streak, longestStreak and completedDates. */
  datatype HabitInput = HabitInput(
    name: string,
    icon: string,
    category: Category,
    frequency: Frequency,
    targetDays: seq<int>,
    reminderTime: Option<string>,
    color: string)

  /** A partial habit: the fields given (Some) replace those of the habit it is merged into. */
  datatype HabitUpdate = HabitUpdate(
    id: Option<string>,
    name: Option<string>,
    icon: Option<string>,
    category: Option<Category>,
    frequency: Option<Frequency>,
    targetDays: Option<seq<int>>,
    reminderTime: Option<Option<string>>,
    color: Option<string>,
    createdAt: Option<int>,
    streak: Option<int>,
    longestStreak: Option<int>,
    completedDates: Option<seq<int>>)

  /** The completion ledger: habit id to the days on which the habit was completed. */
  type Ledger = map<string, seq<int>>

  function Pick<T>(given: Option<T>, current: T): T
  {
    if given.Some? then given.value else current
  }

  /** `{ ...h, ...u }`: every field u gives replaces the habit's own. */
  function Merge(h: Habit, u: HabitUpdate): (r: Habit)
    ensures u.id.None? ==> r.id == h.id
    ensures u == HabitUpdate(None, None, None, None, None, None, None, None, None, None, None, None) ==> r == h
  {
    Habit(Pick(u.id, h.id), Pick(u.name, h.name), Pick(u.icon, h.icon),
          Pick(u.category, h.category), Pick(u.frequency, h.frequency),
          Pick(u.targetDays, h.targetDays), Pick(u.reminderTime, h.reminderTime),
          Pick(u.color, h.color), Pick(u.createdAt, h.createdAt), Pick(u.streak, h.streak),
          Pick(u.longestStreak, h.longestStreak), Pick(u.completedDates, h.completedDates))
  }

  /** The update toggleCompletion applies: only streak and longestStreak. */
  function StreakUpdate(streak: int, longestStreak: int): HabitUpdate
  {
    HabitUpdate(None, None, None, None, None, None, None, None, None, Some(streak), Some(longestStreak), None)
  }

  /** The habit addHabit creates from the caller's fields, a fresh id and the creation instant. */
  function NewHabit(input: HabitInput, id: string, createdAt: int): (r: Habit)
    ensures HabitInput(r.name, r.icon, r.category, r.frequency, r.targetDays, r.reminderTime, r.color) == input
    ensures r.id == id && r.createdAt == createdAt
    ensures r.streak == 0 && r.longestStreak == 0 && r.completedDates == []
  {
    Habit(id, input.name, input.icon, input.category, input.frequency, input.targetDays,
          input.reminderTime, input.color, createdAt, 0, 0, [])
  }

  predicate HasHabit(hs: seq<Habit>, id: string)
  {
    exists k | 0 <= k < |hs| :: hs[k].id == id
  }

  predicate UniqueIds(hs: seq<Habit>)
  {
    forall i, j | 0 <= i < j < |hs| :: hs[i].id != hs[j].id
  }

  /** Every habit's cached streak is non-negative and at most its longest streak. */
  predicate StreaksConsistent(hs: seq<Habit>)
  {
    forall k | 0 <= k < |hs| :: 0 <= hs[k].streak <= hs[k].longestStreak
  }

  /** `habits.find(h => h.id === id)`, as the index of the first habit with that id. */
  function FindHabit(hs: seq<Habit>, id: string): (r: Option<nat>)
    ensures r.None? <==> !HasHabit(hs, id)
    ensures r.Some? ==> r.value < |hs| && hs[r.value].id == id
    ensures r.Some? ==> forall j | 0 <= j < r.value :: hs[j].id != id
  {
    if hs == [] then None
    else if hs[0].id == id then Some(0)
    else
      match FindHabit(hs[1..], id)
      case None => None
      case Some(k) => Some(k + 1)
  }

  /** `habits.map(h => h.id === id ? { ...h, ...u } : h)`. */
  function UpdateWhere(hs: seq<Habit>, id: string, u: HabitUpdate): (r: seq<Habit>)
    ensures |r| == |hs|
    ensures forall k | 0 <= k < |hs| :: r[k] == if hs[k].id == id then Merge(hs[k], u) else hs[k]
  {
    seq(|hs|, k requires 0 <= k < |hs| => if hs[k].id == id then Merge(hs[k], u) else hs[k])
  }

  /** `habits.filter(h => h.id !== id)`. */
  function WithoutHabit(hs: seq<Habit>, id: string): (r: seq<Habit>)
    ensures |r| <= |hs|
    ensures forall h :: h in r <==> h in hs && h.id != id
  {
    if hs == [] then []
    else
      assert hs == [hs[0]] + hs[1..];
      (if hs[0].id == id then [] else [hs[0]]) + WithoutHabit(hs[1..], id)
  }

  lemma {:induction false} WithoutHabitAppend(a: seq<Habit>, b: seq<Habit>, id: string)
    ensures WithoutHabit(a + b, id) == WithoutHabit(a, id) + WithoutHabit(b, id)
  {
    if a == [] {
      assert a + b == b;
    } else {
      assert (a + b)[0] == a[0];
      assert (a + b)[1..] == a[1..] + b;
      WithoutHabitAppend(a[1..], b, id);
    }
  }

  lemma {:induction false} WithoutHabitAbsent(hs: seq<Habit>, id: string)
    requires !HasHabit(hs, id)
    ensures WithoutHabit(hs, id) == hs
  {
    if hs != [] {
      assert !HasHabit(hs[1..], id) by {
        forall k | 0 <= k < |hs| - 1 ensures hs[1..][k].id != id {
          assert hs[1..][k] == hs[k + 1];
        }
      }
      WithoutHabitAbsent(hs[1..], id);
    }
  }

  /**
   * Deleting a habit whose id is unique removes exactly that habit and keeps
   * every other habit in its order.
   */
  lemma WithoutHabitRemovesOne(hs: seq<Habit>, k: nat, id: string)
    requires UniqueIds(hs) && k < |hs| && hs[k].id == id
    ensures WithoutHabit(hs, id) == hs[..k] + hs[k + 1..]
  {
    var before, after := hs[..k], hs[k + 1..];
    assert !HasHabit(before, id) by {
      forall j | 0 <= j < |before| ensures before[j].id != id {
        assert before[j] == hs[j];
      }
    }
    assert !HasHabit(after, id) by {
      forall j | 0 <= j < |after| ensures after[j].id != id {
        assert after[j] == hs[k + 1 + j];
      }
    }
    assert hs == before + ([hs[k]] + after);
    WithoutHabitAppend(before, [hs[k]] + after, id);
    WithoutHabitAppend([hs[k]], after, id);
    WithoutHabitAbsent(before, id);
    WithoutHabitAbsent(after, id);
    calc {
      WithoutHabit(hs, id);
      WithoutHabit(before, id) + (WithoutHabit([hs[k]], id) + WithoutHabit(after, id));
      { assert [hs[k]][1..] == []; }
      before + ([] + after);
      { assert [] + after == after; }
      before + after;
    }
  }

  /** The days recorded for a habit; a missing entry counts as none (`completions[id] || []`). */
  function Entry(ledger: Ledger, id: string): (r: seq<int>)
    ensures LedgerWellFormed(ledger) ==> NoDuplicates(r)
  {
    if id in ledger then ledger[id] else []
  }

  /** The ledger keeps every recorded day at most once per habit. */
  predicate LedgerWellFormed(ledger: Ledger)
  {
    forall id | id in ledger :: NoDuplicates(ledger[id])
  }

  /** toggleCompletion's new entry: drop the day if it is recorded, otherwise append it. */
  function ToggledEntry(entry: seq<int>, day: int): (r: seq<int>)
    ensures day in r <==> day !in entry
    ensures forall d | d != day :: d in r <==> d in entry
  {
    if day in entry then
      RemoveMembers(entry, day);
      Remove(entry, day)
    else entry + [day]
  }

  lemma ToggledEntryKeepsNoDuplicates(entry: seq<int>, day: int)
    requires NoDuplicates(entry)
    ensures NoDuplicates(ToggledEntry(entry, day))
  {
    if day in entry {
      RemoveKeepsNoDuplicates(entry, day);
    }
  }

  /** Toggling the same day twice restores the set of recorded days. */
  lemma ToggleTwiceSameDays(entry: seq<int>, day: int)
    ensures forall d :: d in ToggledEntry(ToggledEntry(entry, day), day) <==> d in entry
  {
  }

  /** Toggling an unrecorded day twice restores the entry itself, order included. */
  lemma ToggleTwiceRestoresEntry(entry: seq<int>, day: int)
    requires day !in entry
    ensures ToggledEntry(ToggledEntry(entry, day), day) == entry
  {
    RemoveAppend(entry, [day], day);
    RemoveAbsent(entry, day);
    assert Remove([day], day) == [];
  }

  /**
   * What toggleCompletion does to the habit list once the new streak is known:
   * when some habit has the id, every habit with that id gets that streak and
   * the larger of the first such habit's longest streak and the new streak.
   */
  function RecordStreak(hs: seq<Habit>, id: string, streak: nat): (r: seq<Habit>)
    ensures |r| == |hs|
    ensures !HasHabit(hs, id) ==> r == hs
  {
    match FindHabit(hs, id)
    case None => hs
    case Some(k) => UpdateWhere(hs, id, StreakUpdate(streak, Max(hs[k].longestStreak, streak)))
  }

  function Max(a: int, b: int): int
  {
    if a >= b then a else b
  }

  /**
   * With unique ids, recording a streak sets the streak of the habit with that
   * id, raises its longest streak to at least the new streak without ever
   * lowering it, and leaves every other habit as it was.
   */
  lemma RecordStreakEffect(hs: seq<Habit>, id: string, streak: nat)
    requires UniqueIds(hs)
    ensures |RecordStreak(hs, id, streak)| == |hs|
    ensures forall k | 0 <= k < |hs| && hs[k].id != id :: RecordStreak(hs, id, streak)[k] == hs[k]
    ensures forall k | 0 <= k < |hs| && hs[k].id == id ::
              var h := RecordStreak(hs, id, streak)[k];
              h == hs[k].(streak := streak, longestStreak := Max(hs[k].longestStreak, streak))
  {
  }

  /**
   * Without unique ids: every habit with the id gets the larger of the FIRST
   * such habit's longest streak and the new streak, whatever its own was.
   */
  lemma RecordStreakUsesFirstMatch(hs: seq<Habit>, id: string, streak: nat)
    requires HasHabit(hs, id)
    ensures forall k | 0 <= k < |hs| && hs[k].id == id ::
              RecordStreak(hs, id, streak)[k].longestStreak == Max(hs[FindHabit(hs, id).value].longestStreak, streak)
  {
  }

  /** Recording a streak changes no id. */
  lemma RecordStreakKeepsIds(hs: seq<Habit>, id: string, streak: nat)
    ensures |RecordStreak(hs, id, streak)| == |hs|
    ensures forall k | 0 <= k < |hs| :: RecordStreak(hs, id, streak)[k].id == hs[k].id
  {
  }

  lemma RecordStreakKeepsInvariants(hs: seq<Habit>, id: string, streak: nat)
    requires UniqueIds(hs) && StreaksConsistent(hs)
    ensures UniqueIds(RecordStreak(hs, id, streak)) && StreaksConsistent(RecordStreak(hs, id, streak))
  {
    RecordStreakEffect(hs, id, streak);
  }

  /** Every ledger key belongs to some habit of the list. */
  predicate NoOrphans(hs: seq<Habit>, ledger: Ledger)
  {
    forall id | id in ledger :: HasHabit(hs, id)
  }

  /** Appending a habit with an unused id and no streak keeps ids unique and streaks consistent. */
  lemma AppendKeepsInvariants(hs: seq<Habit>, h: Habit)
    requires UniqueIds(hs) && StreaksConsistent(hs)
    requires !HasHabit(hs, h.id) && 0 <= h.streak <= h.longestStreak
    ensures UniqueIds(hs + [h]) && StreaksConsistent(hs + [h])
  {
    var r := hs + [h];
    forall i, j | 0 <= i < j < |r| ensures r[i].id != r[j].id {
      if j == |hs| {
        assert r[i] == hs[i];
      } else {
        assert r[i] == hs[i] && r[j] == hs[j];
      }
    }
  }

  /**
   * An update that sets neither the id (or sets it to the same id) nor the
   * streak fields keeps ids unique and streaks consistent.
   */
  lemma UpdateKeepsInvariants(hs: seq<Habit>, id: string, u: HabitUpdate)
    requires UniqueIds(hs) && StreaksConsistent(hs)
    requires u.id.None? || u.id == Some(id)
    requires u.streak.None? && u.longestStreak.None?
    ensures UniqueIds(UpdateWhere(hs, id, u)) && StreaksConsistent(UpdateWhere(hs, id, u))
  {
    var r := UpdateWhere(hs, id, u);
    assert forall k | 0 <= k < |hs| ::
      r[k].id == hs[k].id && r[k].streak == hs[k].streak && r[k].longestStreak == hs[k].longestStreak;
  }

  /** An update aimed at an id no habit has changes nothing. */
  lemma UpdateUnknownIdIsIdentity(hs: seq<Habit>, id: string, u: HabitUpdate)
    requires !HasHabit(hs, id)
    ensures UpdateWhere(hs, id, u) == hs
  {
    var r := UpdateWhere(hs, id, u);
    assert forall k | 0 <= k < |hs| :: r[k] == hs[k];
  }

  /** Dropping one habit from a list keeps ids unique and streaks consistent. */
  lemma DropOneKeepsInvariants(hs: seq<Habit>, k: int)
    requires UniqueIds(hs) && StreaksConsistent(hs) && 0 <= k < |hs|
    ensures UniqueIds(hs[..k] + hs[k + 1..]) && StreaksConsistent(hs[..k] + hs[k + 1..])
  {
    var r := hs[..k] + hs[k + 1..];
    forall i, j | 0 <= i < j < |r| ensures r[i].id != r[j].id {
      var i', j' := if i < k then i else i + 1, if j < k then j else j + 1;
      assert r[i] == hs[i'] && r[j] == hs[j'];
    }
    forall i | 0 <= i < |r| ensures 0 <= r[i].streak <= r[i].longestStreak {
      assert r[i] == hs[if i < k then i else i + 1];
    }
  }

  /** Filtering habits out keeps ids unique and streaks consistent. */
  lemma WithoutHabitKeepsInvariants(hs: seq<Habit>, id: string)
    requires UniqueIds(hs) && StreaksConsistent(hs)
    ensures UniqueIds(WithoutHabit(hs, id)) && StreaksConsistent(WithoutHabit(hs, id))
  {
    if HasHabit(hs, id) {
      var k :| 0 <= k < |hs| && hs[k].id == id;
      WithoutHabitRemovesOne(hs, k, id);
      DropOneKeepsInvariants(hs, k);
    } else {
      WithoutHabitAbsent(hs, id);
    }
  }

  /** Deleting a habit and its ledger entry leaves no orphaned ledger entry. */
  lemma DeleteKeepsNoOrphans(hs: seq<Habit>, ledger: Ledger, id: string)
    requires NoOrphans(hs, ledger)
    ensures NoOrphans(WithoutHabit(hs, id), ledger - {id})
  {
    forall key | key in ledger - {id} ensures HasHabit(WithoutHabit(hs, id), key) {
      var k :| 0 <= k < |hs| && hs[k].id == key;
      assert hs[k] in WithoutHabit(hs, id);
    }
  }
}
