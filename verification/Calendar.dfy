/**
 The reporting window: the calendar month before a date, computed field by field as the
 program does, against the day count of the proleptic Gregorian calendar.
 */
module Calendar {
  import opened Wrappers

  const MIN_YEAR: int := -9999
  const MAX_YEAR: int := 9999

  datatype Date = Date(year: int, month: int, day: int)

  predicate Leap(y: int) { y % 4 == 0 && (y % 100 != 0 || y % 400 == 0) }

  function DaysIn(y: int, m: int): (n: nat)
    ensures 28 <= n <= 31
  {
    if m == 2 then (if Leap(y) then 29 else 28)
    else if m == 4 || m == 6 || m == 9 || m == 11 then 30
    else 31
  }

  predicate Exists(d: Date) {
    MIN_YEAR <= d.year <= MAX_YEAR && 1 <= d.month <= 12 && 1 <= d.day <= DaysIn(d.year, d.month)
  }

  function FromCalendarDate(y: int, m: int, d: int): Option<Date> {
    if Exists(Date(y, m, d)) then Some(Date(y, m, d)) else None
  }

  function DayBefore(d: Date): Date {
    if d.day > 1 then Date(d.year, d.month, d.day - 1)
    else if d.month > 1 then Date(d.year, d.month - 1, DaysIn(d.year, d.month - 1))
    else Date(d.year - 1, 12, 31)
  }

  /** The previous calendar month, first and last day; None where the program would panic. */
  function PreviousMonthWindow(today: Date): Option<(Date, Date)> {
    var prev := if today.month == 1 then 12 else today.month - 1;
    var year := if today.month == 1 then today.year - 1 else today.year;
    match FromCalendarDate(year, prev, 1)
    case None => None
    case Some(start) =>
      var next := if start.month == 12
                  then FromCalendarDate(start.year + 1, 1, 1)
                  else FromCalendarDate(start.year, start.month + 1, 1);
      match next
      case None => None
      case Some(first) => Some((start, DayBefore(first)))
  }

  // ---- Day count ----

  function DaysBeforeYear(y: int): int {
    var p := y - 1;
    365 * p + p / 4 - p / 100 + p / 400
  }

  function DaysBeforeMonth(y: int, m: nat): int {
    if m <= 1 then 0 else DaysBeforeMonth(y, m - 1) + DaysIn(y, m - 1)
  }

  /** Days since the day before 1 January of year 1. */
  function Ordinal(d: Date): int
    requires d.month >= 1
  {
    DaysBeforeYear(d.year) + DaysBeforeMonth(d.year, d.month) + d.day
  }

  lemma MonthLengths(y: int)
    ensures DaysBeforeMonth(y, 13) == 337 + DaysIn(y, 2)
  {
    var march := DaysBeforeMonth(y, 3);
    assert DaysBeforeMonth(y, 2) == 31 && march == 31 + DaysIn(y, 2);
    assert DaysBeforeMonth(y, 4) == march + 31 && DaysBeforeMonth(y, 5) == march + 61;
    assert DaysBeforeMonth(y, 6) == march + 92 && DaysBeforeMonth(y, 7) == march + 122;
    assert DaysBeforeMonth(y, 8) == march + 153 && DaysBeforeMonth(y, 9) == march + 184;
    assert DaysBeforeMonth(y, 10) == march + 214 && DaysBeforeMonth(y, 11) == march + 245;
    assert DaysBeforeMonth(y, 12) == march + 275 && DaysBeforeMonth(y, 13) == march + 306;
  }

  lemma LeapDays(y: int)
    ensures y / 4 - (y - 1) / 4 == if y % 4 == 0 then 1 else 0
    ensures y / 100 - (y - 1) / 100 == if y % 100 == 0 then 1 else 0
    ensures y / 400 - (y - 1) / 400 == if y % 400 == 0 then 1 else 0
    ensures y % 400 == 0 ==> y % 100 == 0
    ensures y % 100 == 0 ==> y % 4 == 0
  {
  }

  /** A year lasts from its first day to the first day of the next. */
  lemma YearLength(y: int)
    ensures DaysBeforeYear(y + 1) == DaysBeforeYear(y) + DaysBeforeMonth(y, 13)
  {
    MonthLengths(y);
    LeapDays(y);
  }

  lemma DayBeforeCountsDown(d: Date)
    requires Exists(d)
    ensures DayBefore(d).month >= 1 && Ordinal(DayBefore(d)) == Ordinal(d) - 1
  {
    if d.day == 1 && d.month == 1 {
      YearLength(d.year - 1);
      assert DaysBeforeMonth(d.year - 1, 13) == DaysBeforeMonth(d.year - 1, 12) + DaysIn(d.year - 1, 12);
    }
  }

  // ---- Months in sequence ----

  function MonthIndex(d: Date): int { 12 * d.year + d.month }

  /** The day count of the first of the month with this index. */
  function FirstOf(i: int): int {
    Ordinal(Date((i - 1) / 12, (i - 1) % 12 + 1, 1))
  }

  lemma FirstOfMonth(y: int, m: int)
    requires 1 <= m <= 12
    ensures FirstOf(12 * y + m) == Ordinal(Date(y, m, 1))
    ensures FirstOf(12 * y + m + 1) == FirstOf(12 * y + m) + DaysIn(y, m)
  {
    var i := 12 * y + m;
    assert (i - 1) / 12 == y && (i - 1) % 12 + 1 == m;
    if m == 12 {
      assert i / 12 == y + 1 && i % 12 == 0;
      YearLength(y);
      assert DaysBeforeMonth(y, 13) == DaysBeforeMonth(y, 12) + DaysIn(y, 12);
    } else {
      assert i / 12 == y && i % 12 + 1 == m + 1;
    }
  }

  lemma FirstOrdinal(first: Date)
    requires Exists(first) && first.day == 1
    ensures Ordinal(first) == FirstOf(MonthIndex(first))
  {
    FirstOfMonth(first.year, first.month);
  }

  lemma {:induction false} FirstOfGrows(i: int, j: int)
    requires i < j
    ensures FirstOf(i) < FirstOf(j)
    decreases j - i
  {
    FirstOfMonth((j - 2) / 12, (j - 2) % 12 + 1);
    if i == j - 1 {
    } else {
      FirstOfGrows(i, j - 1);
    }
  }

  /** Start and end of a period, as the first and last day of one month. */
  ghost predicate CoversMonth(start: Date, end: Date, i: int) {
    && Exists(start) && Exists(end)
    && start.day == 1 && MonthIndex(start) == i && MonthIndex(end) == i
    && Ordinal(start) == FirstOf(i) && Ordinal(end) == FirstOf(i + 1) - 1
  }

  lemma MonthBefore(start: Date, end: Date, first: Date)
    requires Exists(start) && Exists(end) && Exists(first) && start.day == 1 && first.day == 1
    requires MonthIndex(start) + 1 == MonthIndex(first) && MonthIndex(end) == MonthIndex(start)
    requires Ordinal(end) == Ordinal(first) - 1
    ensures CoversMonth(start, end, MonthIndex(start))
  {
    FirstOrdinal(start);
    FirstOrdinal(first);
  }

  lemma WindowFields(today: Date)
    requires Exists(today)
    ensures var w := PreviousMonthWindow(today);
            && (w.None? <==> today.year == MIN_YEAR && today.month == 1)
            && (w.Some? ==>
                  && w.value.1 == DayBefore(Date(today.year, today.month, 1))
                  && Exists(w.value.0) && Exists(w.value.1) && w.value.0.day == 1
                  && MonthIndex(w.value.0) == MonthIndex(today) - 1
                  && MonthIndex(w.value.1) == MonthIndex(today) - 1)
  {
  }

  /**
   For every date, the window starts on a first of month and ends the day before the
   current month starts. Only January of the first representable year has none.
   */
  lemma WindowIsPreviousMonth(today: Date)
    requires Exists(today)
    ensures PreviousMonthWindow(today).None? <==> today.year == MIN_YEAR && today.month == 1
    ensures PreviousMonthWindow(today).Some? ==>
              var (start, end) := PreviousMonthWindow(today).value;
              && CoversMonth(start, end, MonthIndex(today) - 1)
              && Ordinal(end) + 1 == Ordinal(Date(today.year, today.month, 1))
  {
    WindowFields(today);
    if PreviousMonthWindow(today).Some? {
      var (start, end) := PreviousMonthWindow(today).value;
      var first := Date(today.year, today.month, 1);
      DayBeforeCountsDown(first);
      MonthBefore(start, end, first);
    }
  }

  /** Two dates share their window exactly when they share year and month. */
  lemma SameWindowIff(a: Date, b: Date)
    requires Exists(a) && Exists(b)
    ensures PreviousMonthWindow(a) == PreviousMonthWindow(b) <==> a.year == b.year && a.month == b.month
  {
  }

  /** Consecutive windows abut, and windows of different months never share a day. */
  lemma WindowsTile(s: Date, e: Date, i: int, s': Date, e': Date, j: int)
    requires CoversMonth(s, e, i) && CoversMonth(s', e', j)
    ensures j == i + 1 ==> Ordinal(e) + 1 == Ordinal(s')
    ensures i < j ==> Ordinal(e) < Ordinal(s')
    ensures i == j ==> s == s' && Ordinal(e) == Ordinal(e')
  {
    if i + 1 < j {
      FirstOfGrows(i + 1, j);
    }
  }

  // ---- The calendar, written out ----

  /** How long a month is. */
  function MonthLength(y: int, m: int): int
    requires 1 <= m <= 12
  {
    var february := if y % 400 == 0 then 29 else if y % 100 == 0 then 28 else if y % 4 == 0 then 29 else 28;
    [31, february, 31, 30, 31, 30, 31, 31, 30, 31, 30, 31][m - 1]
  }

  /** The days of a year that are over when a month begins. */
  function Offset(y: int, m: int): int
    requires 1 <= m <= 12
  {
    var leap := if m <= 2 then 0 else if y % 400 == 0 then 1 else if y % 100 == 0 then 0 else if y % 4 == 0 then 1 else 0;
    [0, 31, 59, 90, 120, 151, 181, 212, 243, 273, 304, 334][m - 1] + leap
  }

  lemma CalendarLengths(y: int, m: int)
    requires 1 <= m <= 12
    ensures DaysIn(y, m) == MonthLength(y, m)
  {
    LeapDays(y);
  }

  /** Which dates there are. */
  lemma ExistsIff(d: Date)
    ensures Exists(d) <==> -9999 <= d.year <= 9999 && 1 <= d.month <= 12 && 1 <= d.day <= MonthLength(d.year, d.month)
  {
    if 1 <= d.month <= 12 {
      CalendarLengths(d.year, d.month);
    }
  }

  /** The day count grows by the offset of the month within the year, and by the days of each year. */
  lemma {:induction false} OrdinalMeans(y: int, m: int, d: int)
    requires 1 <= m <= 12
    ensures Ordinal(Date(y, m, d)) == Ordinal(Date(y, 1, 1)) + Offset(y, m) + d - 1
    ensures Ordinal(Date(y + 1, 1, 1)) == Ordinal(Date(y, 1, 1)) + Offset(y, 12) + 31
    ensures Ordinal(Date(1, 1, 1)) == 1
  {
    YearLength(y);
    MonthLengths(y);
    OffsetMeans(y, m);
    OffsetMeans(y, 12);
    assert DaysBeforeMonth(y, 13) == DaysBeforeMonth(y, 12) + DaysIn(y, 12);
  }

  lemma {:induction false} OffsetMeans(y: int, m: int)
    requires 1 <= m <= 12
    ensures DaysBeforeMonth(y, m) == Offset(y, m)
  {
    LeapDays(y);
    if m == 1 {
    } else {
      OffsetMeans(y, m - 1);
      CalendarLengths(y, m - 1);
    }
  }

  /** The window of a date, written out: the month before it, from its first day to its last. */
  lemma WindowMeans(today: Date)
    requires Exists(today)
    ensures var y, m := if today.month == 1 then today.year - 1 else today.year, if today.month == 1 then 12 else today.month - 1;
            PreviousMonthWindow(today) == if y < -9999 then None else Some((Date(y, m, 1), Date(y, m, MonthLength(y, m))))
  {
    var y, m := if today.month == 1 then today.year - 1 else today.year, if today.month == 1 then 12 else today.month - 1;
    CalendarLengths(y, m);
  }
}
