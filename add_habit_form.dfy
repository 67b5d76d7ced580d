/**
 * The new-habit dialog's form: the weekday picker (toggleDay) and the submit
 * handler, which rejects a blank name, trims it, hands the habit fields to
 * the store and resets the form to its defaults.
 */
module AddHabitForm {
  import opened Sorting
  import opened Habits

  /** The weekdays a new habit starts with: every day, Sunday first. */
  const AllDays: seq<int> := [0, 1, 2, 3, 4, 5, 6]

  const DefaultIcon: string := "\U{1F3AF}"

  const DefaultReminder: string := "09:00"

  /** A picker selection: weekday indices, ascending, each at most once. */
  predicate ValidDays(days: seq<int>)
  {
    && SortedAscending(days)
    && NoDuplicates(days)
    && forall k | 0 <= k < |days| :: 0 <= days[k] < 7
  }

  /** The default selection is a valid one. */
  lemma AllDaysValid()
    ensures ValidDays(AllDays)
  {
  }

  /**
   * toggleDay's new selection: a selected day is filtered out, an unselected
   * one is appended and the whole selection sorted.
   */
  function ToggledDays(days: seq<int>, day: int): (r: seq<int>)
    ensures day in r <==> day !in days
    ensures forall d | d != day :: d in r <==> d in days
  {
    if day in days then
      RemoveMembers(days, day);
      Remove(days, day)
    else
      SameElements(days + [day], SortAscending(days + [day]));
      SortAscending(days + [day])
  }

  /** Toggling a weekday keeps a selection sorted, duplicate-free and within the week. */
  lemma ToggledDaysValid(days: seq<int>, day: int)
    requires ValidDays(days) && 0 <= day < 7
    ensures ValidDays(ToggledDays(days, day))
  {
    var r := ToggledDays(days, day);
    if day in days {
      RemoveKeepsSortedAscending(days, day);
      RemoveKeepsNoDuplicates(days, day);
    } else {
      assert NoDuplicates(days + [day]);
      NoDuplicatesPermutation(days + [day], r);
    }
    forall k | 0 <= k < |r| ensures 0 <= r[k] < 7 {
      assert r[k] in r;
      if r[k] != day {
        assert r[k] in days;
      }
    }
  }

  /** Toggling the same weekday twice gives back the selection it started from. */
  lemma ToggleDayTwiceRestores(days: seq<int>, day: int)
    requires SortedAscending(days) && NoDuplicates(days)
    ensures ToggledDays(ToggledDays(days, day), day) == days
  {
    var once := ToggledDays(days, day);
    var twice := ToggledDays(once, day);
    if day in days {
      RemoveKeepsSortedAscending(days, day);
      NoDuplicatesCounts(days);
      assert multiset(days)[day] == 1;
      assert multiset(twice) == multiset(once) + multiset{day} == multiset(days);
    } else {
      RemoveKeepsSortedAscending(once, day);
      assert multiset(days)[day] == 0;
      assert multiset(twice) == multiset(once)[day := 0] == multiset(days);
    }
    SortedAscendingUnique(twice, days);
  }

  /** The characters String.prototype.trim removes: ECMAScript WhiteSpace and LineTerminator. */
  predicate IsWhiteSpace(c: char)
  {
    || c == '\t' || c == '\n' || c == '\U{000B}' || c == '\U{000C}' || c == '\r' || c == ' '
    || c == '\U{00A0}' || c == '\U{1680}' || '\U{2000}' <= c <= '\U{200A}'
    || c == '\U{2028}' || c == '\U{2029}' || c == '\U{202F}' || c == '\U{205F}'
    || c == '\U{3000}' || c == '\U{FEFF}'
  }

  /** How many white-space characters open s. */
  function LeadingSpace(s: string): (n: nat)
    ensures n <= |s|
    ensures forall k | 0 <= k < n :: IsWhiteSpace(s[k])
    ensures n < |s| ==> !IsWhiteSpace(s[n])
  {
    if s != [] && IsWhiteSpace(s[0]) then
      var n := LeadingSpace(s[1..]);
      assert forall k | 1 <= k < 1 + n :: s[k] == s[1..][k - 1];
      1 + n
    else 0
  }

  /** How many white-space characters close s. */
  function TrailingSpace(s: string): (n: nat)
    ensures n <= |s|
    ensures forall k | |s| - n <= k < |s| :: IsWhiteSpace(s[k])
    ensures n < |s| ==> !IsWhiteSpace(s[|s| - n - 1])
  {
    if s != [] && IsWhiteSpace(s[|s| - 1]) then
      var n := TrailingSpace(s[..|s| - 1]);
      assert forall k | |s| - 1 - n <= k < |s| - 1 :: s[k] == s[..|s| - 1][k];
      1 + n
    else 0
  }

  /** String.prototype.trim: s without its leading and its trailing white space. */
  function Trim(s: string): (r: string)
    ensures |r| <= |s|
  {
    var t := s[LeadingSpace(s)..];
    t[..|t| - TrailingSpace(t)]
  }

  /** Trim keeps s[i..j] where i skips the leading white space and j - i is the trimmed length. */
  lemma TrimIsSlice(s: string)
    ensures LeadingSpace(s) + |Trim(s)| <= |s|
    ensures Trim(s) == s[LeadingSpace(s)..LeadingSpace(s) + |Trim(s)|]
  {
    var i := LeadingSpace(s);
    var t := s[i..];
    SliceOfSuffix(s, i, |t| - TrailingSpace(t));
  }

  lemma SliceOfSuffix(s: string, i: int, n: int)
    requires 0 <= i <= |s| && 0 <= n <= |s| - i
    ensures s[i..][..n] == s[i..i + n]
  {
  }

  lemma TrimDropsOnlySpace(s: string)
    ensures LeadingSpace(s) + |Trim(s)| <= |s|
    ensures forall k | LeadingSpace(s) + |Trim(s)| <= k < |s| :: IsWhiteSpace(s[k])
  {
    var i := LeadingSpace(s);
    var t := s[i..];
    var n := |t| - TrailingSpace(t);
    forall k | i + n <= k < |s| ensures IsWhiteSpace(s[k]) {
      assert s[k] == t[k - i];
    }
  }

  lemma TrimmedEnds(s: string)
    ensures Trim(s) == [] || (!IsWhiteSpace(Trim(s)[0]) && !IsWhiteSpace(Trim(s)[|Trim(s)| - 1]))
  {
    var i := LeadingSpace(s);
    var t := s[i..];
    var r := Trim(s);
    if r != [] {
      assert r[0] == t[0] == s[i];
      assert r[|r| - 1] == t[|t| - TrailingSpace(t) - 1];
    }
  }

  /**
   * Trim keeps a contiguous part of s, drops only white space around it, and
   * what it keeps neither starts nor ends with white space.
   */
  lemma TrimKeepsCore(s: string)
    ensures LeadingSpace(s) + |Trim(s)| <= |s|
    ensures Trim(s) == s[LeadingSpace(s)..LeadingSpace(s) + |Trim(s)|]
    ensures forall k | 0 <= k < LeadingSpace(s) :: IsWhiteSpace(s[k])
    ensures forall k | LeadingSpace(s) + |Trim(s)| <= k < |s| :: IsWhiteSpace(s[k])
    ensures Trim(s) == [] || (!IsWhiteSpace(Trim(s)[0]) && !IsWhiteSpace(Trim(s)[|Trim(s)| - 1]))
  {
    TrimIsSlice(s);
    TrimDropsOnlySpace(s);
    TrimmedEnds(s);
  }

  /** Trimming a trimmed name changes nothing. */
  lemma TrimIdempotent(s: string)
    ensures Trim(Trim(s)) == Trim(s)
  {
    TrimKeepsCore(s);
    var r := Trim(s);
    if r != [] {
      assert LeadingSpace(r) == 0 && r[0..] == r;
      assert TrailingSpace(r) == 0 && r[..|r|] == r;
    }
  }

  /** A name is rejected exactly when it consists of white space alone (the empty name included). */
  lemma BlankIffAllWhiteSpace(s: string)
    ensures Trim(s) == [] <==> forall k | 0 <= k < |s| :: IsWhiteSpace(s[k])
  {
    TrimKeepsCore(s);
  }

  /** categoryColors: the colour each category is drawn in. */
  function CategoryColor(c: Category): (r: string)
    ensures |r| > 4 && r[..4] == "hsl(" && r[|r| - 1] == ')'
  {
    match c
    case Health => "hsl(200 80% 50%)"
    case Fitness => "hsl(15 85% 60%)"
    case Mindfulness => "hsl(162 63% 41%)"
    case Productivity => "hsl(38 92% 50%)"
    case Learning => "hsl(280 60% 55%)"
    case Social => "hsl(340 75% 55%)"
    case Other => "hsl(220 15% 50%)"
  }

  /**
   * What handleSubmit hands to onAdd: nothing for a blank name; otherwise
   * the trimmed name, a daily frequency, the category's colour and the
   * remaining fields as entered.
   */
  function Submission(name: string, icon: string, category: Category, targetDays: seq<int>, reminderTime: string): (r: Option<HabitInput>)
    ensures r.None? <==> forall k | 0 <= k < |name| :: IsWhiteSpace(name[k])
    ensures r.Some? ==> r.value.name != [] && r.value.name == Trim(name)
    ensures r.Some? ==> && r.value.icon == icon && r.value.category == category
                        && r.value.frequency == Daily && r.value.targetDays == targetDays
                        && r.value.reminderTime == Some(reminderTime)
                        && r.value.color == CategoryColor(category)
  {
    BlankIffAllWhiteSpace(name);
    var trimmed := Trim(name);
    if trimmed == [] then None
    else Some(HabitInput(trimmed, icon, category, Daily, targetDays, Some(reminderTime), CategoryColor(category)))
  }

  /** A submitted name is submitted again unchanged: the dialog never trims twice into something new. */
  lemma SubmissionNameStable(name: string, icon: string, category: Category, targetDays: seq<int>, reminderTime: string)
    requires Submission(name, icon, category, targetDays, reminderTime).Some?
    ensures var n := Submission(name, icon, category, targetDays, reminderTime).value.name;
      Submission(n, icon, category, targetDays, reminderTime) == Submission(name, icon, category, targetDays, reminderTime)
  {
    TrimIdempotent(name);
  }

  /** The dialog's form state. */
  class Form {
    var name: string
    var icon: string
    var category: Category
    var targetDays: seq<int>
    var reminderTime: string

    /** The form is at its defaults: an empty name, the target icon, health, every day, nine o'clock. */
    ghost predicate AtDefaults()
      reads this
    {
      name == [] && icon == DefaultIcon && category == Health
      && targetDays == AllDays && reminderTime == DefaultReminder
    }

    constructor ()
      ensures AtDefaults() && ValidDays(targetDays)
    {
      name, icon, category := [], DefaultIcon, Health;
      targetDays, reminderTime := AllDays, DefaultReminder;
      AllDaysValid();
    }

    /** toggleDay: the day leaves the selection if selected and joins it otherwise. */
    method ToggleDay(day: int)
      modifies this
      ensures targetDays == ToggledDays(old(targetDays), day)
      ensures name == old(name) && icon == old(icon) && category == old(category)
      ensures reminderTime == old(reminderTime)
      ensures old(ValidDays(targetDays)) && 0 <= day < 7 ==> ValidDays(targetDays)
    {
      if day in targetDays {
        targetDays := Remove(targetDays, day);
      } else {
        targetDays := SortAscending(targetDays + [day]);
      }
      if ValidDays(old(targetDays)) && 0 <= day < 7 {
        ToggledDaysValid(old(targetDays), day);
      }
    }

    /**
     * handleSubmit: a blank name leaves the form as it is and adds nothing;
     * otherwise the habit fields are handed over and the form is reset.
     */
    method Submit() returns (added: Option<HabitInput>)
      modifies this
      ensures added == Submission(old(name), old(icon), old(category), old(targetDays), old(reminderTime))
      ensures added.None? ==> unchanged(this)
      ensures added.Some? ==> AtDefaults() && ValidDays(targetDays)
    {
      var trimmed := Trim(name);
      if trimmed == [] {
        return None;
      }
      added := Some(HabitInput(trimmed, icon, category, Daily, targetDays, Some(reminderTime), CategoryColor(category)));
      name, icon, category := [], DefaultIcon, Health;
      targetDays, reminderTime := AllDays, DefaultReminder;
      AllDaysValid();
    }
  }
}
