/**
 * The calendar view: the month grid (days in the month and the weekday of
 * its first day), the date keys of its cells, each cell's completion summary,
 * and month navigation.
 */
module Calendar {
  import opened Dates
  import opened Habits
  import opened Metrics

  // ----- Decimal strings -----

  predicate IsDigit(c: char)
  {
    '0' <= c <= '9'
  }

  predicate AllDigits(s: string)
  {
    forall k | 0 <= k < |s| :: IsDigit(s[k])
  }

  function Digit(n: int): (c: char)
    requires 0 <= n < 10
    ensures IsDigit(c)
  {
    ('0' as int + n) as char
  }

  function DigitValue(c: char): int
    requires IsDigit(c)
  {
    c as int - '0' as int
  }

  /** String(n) for a non-negative integer: its decimal digits, without leading zeros. */
  function NatToString(n: nat): (s: string)
    ensures s != [] && AllDigits(s)
    ensures |s| == 1 <==> n < 10
  {
    (if n < 10 then [] else NatToString(n / 10)) + [Digit(n % 10)]
  }

  /** The value of a string of decimal digits (leading zeros allowed). */
  function ParseNat(s: string): nat
    requires AllDigits(s)
  {
    if s == [] then 0 else ParseNat(s[..|s| - 1]) * 10 + DigitValue(s[|s| - 1])
  }

  lemma {:induction false} NatToStringRoundTrip(n: nat)
    ensures ParseNat(NatToString(n)) == n
  {
    var s := NatToString(n);
    var init := if n < 10 then [] else NatToString(n / 10);
    assert s[..|s| - 1] == init;
    if n >= 10 {
      NatToStringRoundTrip(n / 10);
    }
  }

  lemma {:induction false} LeadingZero(s: string)
    requires AllDigits(s)
    ensures ParseNat(['0'] + s) == ParseNat(s)
  {
    if s != [] {
      assert (['0'] + s)[..|s|] == ['0'] + s[..|s| - 1];
      LeadingZero(s[..|s| - 1]);
    } else {
      assert (['0'] + s)[..0] == [];
    }
  }

  /** String(y) for any integer year: a minus sign before the digits of a negative one. */
  function IntToString(y: int): (r: string)
    ensures r != []
    ensures r[0] == '-' <==> y < 0
  {
    if y < 0 then ['-'] + NatToString(-y) else NatToString(y)
  }

  /** padStart(2, '0'). */
  function PadStart2(s: string): (r: string)
    ensures |r| == if |s| < 2 then 2 else |s|
    ensures |s| >= 2 ==> r == s
  {
    if |s| == 0 then "00" else if |s| == 1 then ['0'] + s else s
  }

  /** padStart keeps the string as the end of the result and fills the front with zeros. */
  lemma PadStart2Pads(s: string)
    ensures |PadStart2(s)| >= |s|
    ensures PadStart2(s)[|PadStart2(s)| - |s|..] == s
    ensures forall k | 0 <= k < |PadStart2(s)| - |s| :: PadStart2(s)[k] == '0'
  {
  }

  /** getDateString: year, 1-based month and day, the last two padded to two digits, joined by dashes. */
  function DateString(y: int, m: int, d: nat): (r: string)
    requires 0 <= m < 12
    ensures |r| >= |IntToString(y)| + 6
    ensures r[..|IntToString(y)|] == IntToString(y) && r[|IntToString(y)|] == '-'
  {
    IntToString(y) + ['-'] + PadStart2(NatToString(m + 1)) + ['-'] + PadStart2(NatToString(d))
  }

  /** The index of the first dash in s, or |s| if there is none. */
  function FirstDash(s: string): (i: nat)
    ensures i <= |s|
    ensures i < |s| ==> s[i] == '-'
    ensures forall k | 0 <= k < i :: s[k] != '-'
  {
    if s == [] || s[0] == '-' then 0
    else
      var i := FirstDash(s[1..]);
      assert forall k | 1 <= k < 1 + i :: s[k] == s[1..][k - 1];
      1 + i
  }

  /** s cut at its first dash into the part before and the part after, if it has a dash. */
  function SplitAtDash(s: string): Option<(string, string)>
  {
    var i := FirstDash(s);
    if i == |s| then None else Some((s[..i], s[i + 1..]))
  }

  /** Cutting a + "-" + b at its first dash gives back a and b when a has no dash. */
  lemma SplitAtDashJoined(a: string, b: string)
    requires forall k | 0 <= k < |a| :: a[k] != '-'
    ensures SplitAtDash(a + ['-'] + b) == Some((a, b))
  {
    var s := a + ['-'] + b;
    assert s[|a|] == '-';
    assert FirstDash(s) == |a|;
    assert s[..|a|] == a;
    assert s[|a| + 1..] == b;
  }

  /** Reads back year, 0-based month and day from a string of the form getDateString produces. */
  function ParseDateString(s: string): (r: Option<(int, int, int)>)
    ensures r.Some? ==> r.value.1 >= -1 && r.value.2 >= 0
    ensures r.Some? && r.value.0 < 0 ==> s != [] && s[0] == '-'
  {
    if s != [] && s[0] == '-' then
      match ParseUnsigned(s[1..])
      case Some((y, m, d)) => Some((-y, m, d))
      case None => None
    else ParseUnsigned(s)
  }

  function ParseUnsigned(s: string): Option<(int, int, int)>
  {
    match SplitAtDash(s)
    case None => None
    case Some((ys, rest)) =>
      match SplitAtDash(rest)
      case None => None
      case Some((ms, ds)) =>
        if ys != [] && AllDigits(ys) && AllDigits(ms) && AllDigits(ds) then
          Some((ParseNat(ys), ParseNat(ms) - 1, ParseNat(ds)))
        else None
  }

  lemma PadStart2Digits(n: nat)
    ensures AllDigits(PadStart2(NatToString(n)))
    ensures ParseNat(PadStart2(NatToString(n))) == n
  {
    NatToStringRoundTrip(n);
    if n < 10 {
      LeadingZero(NatToString(n));
    }
  }

  lemma DigitsHaveNoDash(s: string)
    requires AllDigits(s)
    ensures forall k | 0 <= k < |s| :: s[k] != '-'
  {
    forall k | 0 <= k < |s| ensures s[k] != '-' {
      assert IsDigit(s[k]);
    }
  }

  lemma ParseUnsignedOf(a: string, b: string, c: string)
    requires a != [] && AllDigits(a) && AllDigits(b) && AllDigits(c)
    ensures ParseUnsigned(a + ['-'] + (b + ['-'] + c)).Some?
    ensures ParseUnsigned(a + ['-'] + (b + ['-'] + c)).value.0 == ParseNat(a)
    ensures ParseUnsigned(a + ['-'] + (b + ['-'] + c)).value.1 == ParseNat(b) - 1
    ensures ParseUnsigned(a + ['-'] + (b + ['-'] + c)).value.2 == ParseNat(c)
  {
    DigitsHaveNoDash(a);
    DigitsHaveNoDash(b);
    var rest := b + ['-'] + c;
    SplitAtDashJoined(a, rest);
    SplitAtDashJoined(b, c);
    var r := ParseUnsigned(a + ['-'] + rest);
    assert r.Some? && r.value.0 == ParseNat(a) && r.value.1 == ParseNat(b) - 1 && r.value.2 == ParseNat(c);
  }

  lemma JoinAssociates(sign: string, ys: string, ms: string, ds: string)
    ensures sign + ys + ['-'] + ms + ['-'] + ds == sign + (ys + ['-'] + (ms + ['-'] + ds))
  {
  }

  /** The part of a key after any minus sign reads back as the year's magnitude, the month and the day. */
  lemma UnsignedKeyParses(n: nat, m: int, d: nat)
    requires 0 <= m < 12
    ensures var u := ParseUnsigned(NatToString(n) + ['-'] + (PadStart2(NatToString(m + 1)) + ['-'] + PadStart2(NatToString(d))));
      u.Some? && u.value.0 == n && u.value.1 == m && u.value.2 == d
  {
    NatToStringRoundTrip(n);
    PadStart2Digits(m + 1);
    PadStart2Digits(d);
    ParseUnsignedOf(NatToString(n), PadStart2(NatToString(m + 1)), PadStart2(NatToString(d)));
  }

  /** A date's key reads back as the same year, month and day: getDateString loses nothing. */
  lemma DateStringRoundTrip(y: int, m: int, d: nat)
    requires 0 <= m < 12
    ensures ParseDateString(DateString(y, m, d)) == Some((y, m, d))
  {
    var n: nat := if y < 0 then -y else y;
    var ys, ms, ds := NatToString(n), PadStart2(NatToString(m + 1)), PadStart2(NatToString(d));
    UnsignedKeyParses(n, m, d);
    var body := ys + ['-'] + (ms + ['-'] + ds);
    var sign: string := if y < 0 then ['-'] else [];
    var s := DateString(y, m, d);
    assert IntToString(y) == sign + ys;
    assert s == sign + ys + ['-'] + ms + ['-'] + ds;
    JoinAssociates(sign, ys, ms, ds);
    assert s == sign + body;
    var u := ParseUnsigned(body);
    var r := ParseDateString(s);
    if y < 0 {
      assert s[0] == '-' && s[1..] == body;
    } else {
      assert s == body && s[0] == ys[0] && ys[0] != '-';
      assert r == u;
    }
    assert r.Some? && r.value.0 == y && r.value.1 == m && r.value.2 == d;
  }

  /** Different days of the grid never share a key. */
  lemma DateStringInjective(y1: int, m1: int, d1: nat, y2: int, m2: int, d2: nat)
    requires 0 <= m1 < 12 && 0 <= m2 < 12
    requires DateString(y1, m1, d1) == DateString(y2, m2, d2)
    ensures y1 == y2 && m1 == m2 && d1 == d2
  {
    DateStringRoundTrip(y1, m1, d1);
    DateStringRoundTrip(y2, m2, d2);
  }

  lemma FourDigits(y: int)
    requires 1000 <= y <= 9999
    ensures |NatToString(y)| == 4
  {
    assert |NatToString(y / 1000)| == 1;
    assert NatToString(y / 100) == NatToString(y / 100 / 10) + [Digit(y / 100 % 10)];
    assert NatToString(y / 10) == NatToString(y / 10 / 10) + [Digit(y / 10 % 10)];
  }

  /**
   * For four-digit years and two-digit days the key has the YYYY-MM-DD shape
   * of toISOString's date part, the form completion dates are stored in.
   */
  lemma DateStringIsIso(y: int, m: int, d: nat)
    requires 0 <= m < 12 && 1000 <= y <= 9999 && 1 <= d <= 31
    ensures var s := DateString(y, m, d);
      && |s| == 10 && s[4] == '-' && s[7] == '-'
      && AllDigits(s[..4]) && AllDigits(s[5..7]) && AllDigits(s[8..])
  {
    FourDigits(y);
    var ys, ms, ds := NatToString(y), PadStart2(NatToString(m + 1)), PadStart2(NatToString(d));
    var s := DateString(y, m, d);
    assert s == ys + ['-'] + ms + ['-'] + ds;
    assert s[..4] == ys && s[5..7] == ms && s[8..] == ds;
  }

  // ----- The month grid -----

  /** What getDaysInMonth reports: the month's length and the weekday of its first day. */
  datatype MonthLayout = MonthLayout(daysInMonth: int, startingDay: Weekday)

  /**
   * getDaysInMonth: the length is the date of day 0 of the next month (the
   * last day of this one), the starting day the weekday of the first.
   */
  function GetDaysInMonth(y: int, m: int): (r: MonthLayout)
    requires 0 <= m < 12
    ensures 28 <= r.daysInMonth <= 31
    ensures var (ny, nm) := AddMonths(y, m, 1); DayNumber(y, m, r.daysInMonth) + 1 == DayNumber(ny, nm, 1)
  {
    NextMonthFollowsLastDay(y, m);
    MonthLayout(DaysInMonth(y, m), WeekdayOf(DayNumber(y, m, 1)))
  }

  /**
   * The grid puts startingDay blank cells before day 1, seven cells a row:
   * day d lands in the column of its own weekday.
   */
  lemma GridColumnIsWeekday(y: int, m: int, d: int)
    requires 0 <= m < 12 && 1 <= d <= GetDaysInMonth(y, m).daysInMonth
    ensures (GetDaysInMonth(y, m).startingDay + d - 1) % 7 == WeekdayOf(DayNumber(y, m, d))
  {
    var first := DayNumber(y, m, 1);
    assert DayNumber(y, m, d) == first + (d - 1);
    var w := (first + EpochWeekday) % 7;
    assert (first + EpochWeekday) == 7 * ((first + EpochWeekday) / 7) + w;
    assert (w + d - 1) % 7 == (first + EpochWeekday + d - 1) % 7 by {
      ModShift(w + d - 1, (first + EpochWeekday) / 7);
    }
  }

  lemma ModShift(a: int, q: int)
    ensures (a + 7 * q) % 7 == a % 7
  {
  }

  /**
   * getCompletionForDate: nothing when no habit is scheduled on the day's
   * weekday; otherwise the same tally and percentage the today card shows
   * for that day.
   */
  function CompletionForDate(habits: seq<Habit>, ledger: Ledger, day: int): (r: Option<Progress>)
    ensures r.None? <==> forall h | h in habits :: WeekdayOf(day) !in h.targetDays
    ensures r.Some? ==> r.value == TodayProgress(habits, ledger, day) && r.value.total > 0
  {
    TallyEmptyIffUnscheduled(habits, ledger, day);
    var t := TallyOn(habits, ledger, day);
    if t.total == 0 then None
    else Some(Progress(t.total, t.completed, RoundedPercent(t.completed, t.total)))
  }

  // ----- Navigation -----

  /** The Date constructor's reading of a year: 0 to 99 stand for 1900 to 1999. */
  function JsYear(y: int): (r: int)
    ensures !(0 <= r <= 99)
    ensures r != y <==> 0 <= y <= 99
    ensures r != y ==> r == y + 1900
  {
    if 0 <= y <= 99 then 1900 + y else y
  }

  /** `new Date(y, m + k)` as written: the year goes through JsYear before the months are added. */
  function DateConstructorMonth(y: int, m: int, k: int): (r: (int, int))
    ensures 0 <= r.1 < 12
    ensures 12 * r.0 + r.1 == 12 * JsYear(y) + m + k
  {
    AddMonths(JsYear(y), m, k)
  }

  /** Stepping back from January of year 100 and forward again lands in January 2000, not year 100. */
  lemma DateConstructorSkipsCentury()
    ensures DateConstructorMonth(100, 0, -1) == (99, 11)
    ensures DateConstructorMonth(99, 11, 1) == (2000, 0)
  {
    AddMonthsYearBoundary(100);
    AddMonthsYearBoundary(1999);
  }

  /** The calendar's state: the month shown and the selected day's key. */
  class CalendarState {
    var year: int
    var month: int
    var selectedDate: string

    ghost predicate Valid()
      reads this
    {
      0 <= month < 12
    }

    /** The view opens on the current month with today selected. */
    constructor (todayYear: int, todayMonth: int, todayDay: nat)
      requires 0 <= todayMonth < 12
      ensures year == todayYear && month == todayMonth
      ensures selectedDate == DateString(todayYear, todayMonth, todayDay)
      ensures Valid()
    {
      year, month := todayYear, todayMonth;
      selectedDate := DateString(todayYear, todayMonth, todayDay);
    }

    /** prevMonth: the month before the one shown, across a year boundary if need be. */
    method PrevMonth()
      modifies this
      ensures (year, month) == AddMonths(old(year), old(month), -1)
      ensures selectedDate == old(selectedDate)
      ensures Valid()
    {
      year, month := AddMonths(year, month, -1).0, AddMonths(year, month, -1).1;
    }

    /** nextMonth: the month after the one shown. */
    method NextMonth()
      modifies this
      ensures (year, month) == AddMonths(old(year), old(month), 1)
      ensures selectedDate == old(selectedDate)
      ensures Valid()
    {
      year, month := AddMonths(year, month, 1).0, AddMonths(year, month, 1).1;
    }

    /** Clicking day d of the month shown selects that day's key. */
    method SelectDay(day: nat)
      requires Valid()
      modifies this
      ensures year == old(year) && month == old(month)
      ensures selectedDate == DateString(year, month, day)
      ensures ParseDateString(selectedDate) == Some((year, month, day))
    {
      selectedDate := DateString(year, month, day);
      DateStringRoundTrip(year, month, day);
    }
  }
}
