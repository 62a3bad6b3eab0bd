/** `Calendar` page: the Monday-first month grid, month stepping and the day
    comparisons, over the proleptic Gregorian calendar that JavaScript's
    `Date` uses. Only local calendar fields are modelled; a time of day plays
    no part in any of these operations. */
module Calendar {
  import opened Base
  import opened Text

  /** A local calendar day; `month` counts from 0 as `getMonth()` does. */
  datatype Date = Date(year: int, month: int, day: int)

  predicate IsLeap(y: int)
  {
    y % 4 == 0 && (y % 100 != 0 || y % 400 == 0)
  }

  function DaysInMonth(y: int, m: int): (n: int)
    requires 0 <= m < 12
    ensures 28 <= n <= 31
    ensures m == 1 ==> n == (if IsLeap(y) then 29 else 28)
  {
    if m == 1 then (if IsLeap(y) then 29 else 28)
    else if m == 3 || m == 5 || m == 8 || m == 10 then 30
    else 31
  }

  predicate ValidDate(d: Date)
  {
    0 <= d.month < 12 && 1 <= d.day <= DaysInMonth(d.year, d.month)
  }

  /** Days from 1 January of year 0 to 1 January of year `y`. */
  function DaysBeforeYear(y: int): int
  {
    365 * y + (y + 3) / 4 - (y + 99) / 100 + (y + 399) / 400
  }

  lemma YearLength(y: int)
    ensures DaysBeforeYear(y + 1) - DaysBeforeYear(y) == if IsLeap(y) then 366 else 365
  {
    assert (y + 4) / 4 - (y + 3) / 4 == if y % 4 == 0 then 1 else 0;
    assert (y + 100) / 100 - (y + 99) / 100 == if y % 100 == 0 then 1 else 0;
    assert (y + 400) / 400 - (y + 399) / 400 == if y % 400 == 0 then 1 else 0;
    if y % 100 == 0 { assert y % 4 == 0; }
    if y % 400 == 0 { assert y % 100 == 0; }
  }

  function DaysBeforeMonth(y: int, m: int): (n: int)
    requires 0 <= m < 12
    ensures 0 <= n <= 31 * m
  {
    if m == 0 then 0 else DaysBeforeMonth(y, m - 1) + DaysInMonth(y, m - 1)
  }

  /** Days from 1 January of year 0 to `d`. */
  function DayNumber(d: Date): int
    requires 0 <= d.month < 12
  {
    DaysBeforeYear(d.year) + DaysBeforeMonth(d.year, d.month) + d.day - 1
  }

  /** The 1st of a month follows the last day of the month before. */
  lemma MonthFollows(y: int, m: int)
    requires 0 <= m < 12
    ensures m < 11 ==> DayNumber(Date(y, m + 1, 1)) == DayNumber(Date(y, m, 1)) + DaysInMonth(y, m)
    ensures m == 11 ==> DayNumber(Date(y + 1, 0, 1)) == DayNumber(Date(y, m, 1)) + DaysInMonth(y, m)
  {
    if m == 11 {
      YearLength(y);
      assert DaysBeforeMonth(y, 11) == if IsLeap(y) then 335 else 334 by {
        var k := 0;
        while k < 11
          invariant 0 <= k <= 11
          invariant DaysBeforeMonth(y, k) ==
            [0, 31, 59, 90, 120, 151, 181, 212, 243, 273, 304, 334][k] + (if k >= 2 && IsLeap(y) then 1 else 0)
        {
          k := k + 1;
        }
      }
    }
  }

  /** `getDay()`: 0 is Sunday; 1 January of year 0 was a Saturday. */
  function Weekday(d: Date): (w: int)
    requires 0 <= d.month < 12
    ensures 0 <= w < 7
  {
    (DayNumber(d) + 6) % 7
  }

  /** 1 January 2000 was a Saturday. */
  lemma Y2kWasSaturday()
    ensures Weekday(Date(2000, 0, 1)) == 6
  {
  }

  /** Consecutive days have consecutive weekdays. */
  lemma WeekdayAdvances(d: Date, e: Date)
    requires 0 <= d.month < 12 && 0 <= e.month < 12
    requires DayNumber(e) == DayNumber(d) + 1
    ensures Weekday(e) == (Weekday(d) + 1) % 7
  {
  }

  /** The year `new Date(y, …)` uses: 0 to 99 mean 1900 to 1999. */
  function FullYear(y: int): int
  {
    if 0 <= y <= 99 then 1900 + y else y
  }

  /** A day at or before the end of its month, carried back through
      earlier months while it is below 1. */
  function CarryBack(y: int, m: int, d: int): (r: Date)
    requires 0 <= m < 12 && d <= DaysInMonth(y, m)
    ensures ValidDate(r)
    ensures DayNumber(r) == DayNumber(Date(y, m, 1)) + d - 1
    decreases if d < 1 then 1 - d else 0
  {
    if d < 1 then
      var py := if m == 0 then y - 1 else y;
      var pm := if m == 0 then 11 else m - 1;
      MonthFollows(py, pm);
      assert DayNumber(Date(y, m, 1)) == DayNumber(Date(py, pm, 1)) + DaysInMonth(py, pm);
      CarryBack(py, pm, d + DaysInMonth(py, pm))
    else Date(y, m, d)
  }

  /** A day of at least 1, carried forward through later months while it
      is past the end of its month. */
  function CarryForward(y: int, m: int, d: int): (r: Date)
    requires 0 <= m < 12 && 1 <= d
    ensures ValidDate(r)
    ensures DayNumber(r) == DayNumber(Date(y, m, 1)) + d - 1
    decreases d
  {
    if d > DaysInMonth(y, m) then
      var ny := if m == 11 then y + 1 else y;
      var nm := if m == 11 then 0 else m + 1;
      MonthFollows(y, m);
      assert DayNumber(Date(ny, nm, 1)) == DayNumber(Date(y, m, 1)) + DaysInMonth(y, m);
      CarryForward(ny, nm, d - DaysInMonth(y, m))
    else Date(y, m, d)
  }

  /** The day `d - 1` days after the 1st of month `m` of year `y`. */
  function Normalize(y: int, m: int, d: int): (r: Date)
    requires 0 <= m < 12
    ensures ValidDate(r)
    ensures DayNumber(r) == DayNumber(Date(y, m, 1)) + d - 1
  {
    if d < 1 then CarryBack(y, m, d) else CarryForward(y, m, d)
  }

  /** `new Date(year, month, day)`: the month carries into the year and the
      day into the month, in either direction. */
  function MakeDate(year: int, month: int, day: int): (r: Date)
    ensures ValidDate(r)
    ensures DayNumber(r) == DayNumber(Date(FullYear(year) + month / 12, month % 12, 1)) + day - 1
  {
    Normalize(FullYear(year) + month / 12, month % 12, day)
  }

  /** Distinct valid dates fall on distinct days. */
  lemma {:induction false} DayNumberInjective(a: Date, b: Date)
    requires ValidDate(a) && ValidDate(b) && DayNumber(a) == DayNumber(b)
    ensures a == b
  {
    if a.year != b.year {
      if a.year < b.year { LaterYearLaterDay(a, b); } else { LaterYearLaterDay(b, a); }
    } else if a.month != b.month {
      if a.month < b.month {
        LaterMonthLaterDay(a.year, a.month, b.month);
      } else {
        LaterMonthLaterDay(a.year, b.month, a.month);
      }
    }
  }

  lemma {:induction false} LaterMonthLaterDay(y: int, m: int, n: int)
    requires 0 <= m < n < 12
    ensures DaysBeforeMonth(y, n) >= DaysBeforeMonth(y, m) + DaysInMonth(y, m)
    decreases n
  {
    if n > m + 1 {
      LaterMonthLaterDay(y, m, n - 1);
    }
  }

  lemma LaterYearLaterDay(lo: Date, hi: Date)
    requires ValidDate(lo) && ValidDate(hi) && lo.year < hi.year
    ensures DayNumber(lo) < DayNumber(hi)
  {
    var start, next, later := DaysBeforeYear(lo.year), DaysBeforeYear(lo.year + 1), DaysBeforeYear(hi.year);
    YearEnds(lo.year, lo.month);
    DaysBeforeYearGrows(lo.year + 1, hi.year);
    assert DayNumber(lo) < next by {
      assert DayNumber(lo) == start + DaysBeforeMonth(lo.year, lo.month) + lo.day - 1;
    }
    assert later <= DayNumber(hi);
  }

  lemma YearEnds(y: int, m: int)
    requires 0 <= m < 12
    ensures DaysBeforeMonth(y, m) + DaysInMonth(y, m) <= DaysBeforeYear(y + 1) - DaysBeforeYear(y)
  {
    MonthFollows(y, 11);
    if m < 11 {
      LaterMonthLaterDay(y, m, 11);
    }
  }

  lemma {:induction false} DaysBeforeYearGrows(a: int, b: int)
    requires a <= b
    ensures DaysBeforeYear(a) <= DaysBeforeYear(b)
    decreases b - a
  {
    if a < b {
      YearLength(a);
      DaysBeforeYearGrows(a + 1, b);
    }
  }

  /** A valid date is its own normal form. */
  lemma NormalizeValid(d: Date)
    requires ValidDate(d)
    ensures Normalize(d.year, d.month, d.day) == d
  {
  }

  /** A month index in range is its own remainder. */
  lemma MonthInRange(k: int)
    requires 0 <= k < 12
    ensures k / 12 == 0 && k % 12 == k
  {
  }

  /** Day 0 of the month that follows month `m` of year `y` is its last day. */
  lemma DayBeforeFirst(y: int, m: int, ny: int, nm: int)
    requires 0 <= m < 12 && 0 <= nm < 12
    requires DayNumber(Date(ny, nm, 1)) == DayNumber(Date(y, m, 1)) + DaysInMonth(y, m)
    ensures Normalize(ny, nm, 0) == Date(y, m, DaysInMonth(y, m))
  {
    DayNumberInjective(Normalize(ny, nm, 0), Date(y, m, DaysInMonth(y, m)));
  }

  /** `new Date(year, month + 1, 0)`: the last day of the month. */
  lemma LastDayOfMonth(year: int, month: int)
    requires 0 <= month < 12
    ensures MakeDate(year, month + 1, 0) == Date(FullYear(year), month, DaysInMonth(FullYear(year), month))
  {
    var y := FullYear(year);
    MonthFollows(y, month);
    if month == 11 {
      DayBeforeFirst(y, 11, y + 1, 0);
    } else {
      MonthInRange(month + 1);
      DayBeforeFirst(y, month, y, month + 1);
    }
  }

  /** `new Date(year, month, day)` for a day the month has. */
  lemma DayOfMonth(year: int, month: int, day: int)
    requires 0 <= month < 12 && 1 <= day <= DaysInMonth(FullYear(year), month)
    ensures MakeDate(year, month, day) == Date(FullYear(year), month, day)
  {
    MonthInRange(month);
    DayNumberInjective(MakeDate(year, month, day), Date(FullYear(year), month, day));
  }

  /** The blank cells before the 1st in a grid whose weeks start on Monday:
      how many days the 1st falls after a Monday. */
  function LeadingBlanks(y: int, m: int): (n: int)
    requires 0 <= m < 12
    ensures 0 <= n <= 6
    ensures n == (Weekday(Date(y, m, 1)) + 6) % 7
  {
    var w := Weekday(Date(y, m, 1));
    SundayLast(w);
    (if w == 0 then 7 else w) - 1
  }

  /** Counting from Monday moves Sunday from the front to the back. */
  lemma SundayLast(w: int)
    requires 0 <= w < 7
    ensures (if w == 0 then 7 else w) - 1 == (w + 6) % 7
  {
  }

  /** `days` is a month grid for month `m` of year `y`: `blanks` empty cells,
      then the dates 1, 2, … of that month in order. */
  predicate IsGrid(days: seq<Option<Date>>, blanks: int, y: int, m: int)
    requires 0 <= m < 12
  {
    && 0 <= blanks
    && |days| == blanks + DaysInMonth(y, m)
    && (forall i :: 0 <= i < blanks ==> days[i].None?)
    && (forall i :: blanks <= i < |days| ==> days[i] == Some(Date(y, m, i - blanks + 1)))
  }

  /** `generateCalendarDays()` for the month shown: `None` for each blank cell
      before the 1st, then one date per day of the month. */
  method GenerateCalendarDays(current: Date) returns (days: seq<Option<Date>>)
    requires ValidDate(current)
    ensures IsGrid(days, LeadingBlanks(FullYear(current.year), current.month), FullYear(current.year), current.month)
    ensures |days| <= 37
  {
    var year, month := current.year, current.month;
    ghost var y := FullYear(year);
    var firstDay := MakeDate(year, month, 1);
    DayOfMonth(year, month, 1);
    var lastDay := MakeDate(year, month + 1, 0);
    LastDayOfMonth(year, month);
    var firstDayIndex := if Weekday(firstDay) == 0 then 7 else Weekday(firstDay);
    assert firstDayIndex - 1 == LeadingBlanks(y, month);
    var daysInMonth := lastDay.day;
    assert daysInMonth == DaysInMonth(y, month);
    days := [];
    var i := 1;
    while i < firstDayIndex
      invariant 1 <= i <= firstDayIndex
      invariant |days| == i - 1
      invariant forall k :: 0 <= k < |days| ==> days[k].None?
    {
      days := days + [None];
      i := i + 1;
    }
    ghost var blanks := |days|;
    i := 1;
    while i <= daysInMonth
      invariant 1 <= i <= daysInMonth + 1
      invariant |days| == blanks + i - 1
      invariant forall k :: 0 <= k < blanks ==> days[k].None?
      invariant forall k :: blanks <= k < |days| ==> days[k] == Some(Date(y, month, k - blanks + 1))
    {
      DayOfMonth(year, month, i);
      days := days + [Some(MakeDate(year, month, i))];
      i := i + 1;
    }
    assert IsGrid(days, blanks, y, month);
    assert blanks == LeadingBlanks(y, month);
  }

  lemma PreviousMonthFacts(current: Date)
    ensures var r := MakeDate(current.year, current.month - 1, 1);
            !(0 <= current.year <= 99) && 0 <= current.month < 12 ==>
              r == if current.month == 0 then Date(current.year - 1, 11, 1) else Date(current.year, current.month - 1, 1)
  {
    var r := MakeDate(current.year, current.month - 1, 1);
    if !(0 <= current.year <= 99) && 0 <= current.month < 12 {
      var m := current.month - 1;
      if m == -1 {
        assert m / 12 == -1 && m % 12 == 11;
        DayNumberInjective(r, Date(current.year - 1, 11, 1));
      } else {
        DayOfMonth(current.year, m, 1);
      }
    }
  }

  /** `previousMonth()`. */
  function PreviousMonth(current: Date): (r: Date)
    ensures ValidDate(r) && r.day == 1
    ensures !(0 <= current.year <= 99) && 1 <= current.month < 12 ==> r == Date(current.year, current.month - 1, 1)
    ensures !(0 <= current.year <= 99) && current.month == 0 ==> r == Date(current.year - 1, 11, 1)
  {
    PreviousMonthFacts(current);
    MakeDate(current.year, current.month - 1, 1)
  }

  lemma NextMonthFacts(current: Date)
    ensures var r := MakeDate(current.year, current.month + 1, 1);
            !(0 <= current.year <= 99) && 0 <= current.month < 12 ==>
              r == if current.month == 11 then Date(current.year + 1, 0, 1) else Date(current.year, current.month + 1, 1)
  {
    var r := MakeDate(current.year, current.month + 1, 1);
    if !(0 <= current.year <= 99) && 0 <= current.month < 12 {
      var m := current.month + 1;
      if m == 12 {
        assert m / 12 == 1 && m % 12 == 0;
        DayNumberInjective(r, Date(current.year + 1, 0, 1));
      } else {
        DayOfMonth(current.year, m, 1);
      }
    }
  }

  /** `nextMonth()`. */
  function NextMonth(current: Date): (r: Date)
    ensures ValidDate(r) && r.day == 1
    ensures !(0 <= current.year <= 99) && 0 <= current.month < 11 ==> r == Date(current.year, current.month + 1, 1)
    ensures !(0 <= current.year <= 99) && current.month == 11 ==> r == Date(current.year + 1, 0, 1)
  {
    NextMonthFacts(current);
    MakeDate(current.year, current.month + 1, 1)
  }

  /** Going forward a month and back again returns to the 1st of the same
      month, outside the two-digit years that `new Date` reinterprets. */
  lemma PreviousUndoesNext(current: Date)
    requires ValidDate(current)
    requires !(0 <= current.year <= 99) && !(current.year == -1 && current.month == 11)
    ensures PreviousMonth(NextMonth(current)) == current.(day := 1)
  {
  }

  /** `isToday(date)` with `today` the clock's current local date, and
      `isSelected(date)`: the same day, month and year. */
  predicate SameDay(a: Date, b: Date)
  {
    a.day == b.day && a.month == b.month && a.year == b.year
  }

  lemma SameDayIsEquality(a: Date, b: Date)
    ensures SameDay(a, b) <==> a == b
  {
  }

  /** The cells of a grid that `isToday` or `isSelected` highlights for the
      reference date `mark`. */
  function Marked(days: seq<Option<Date>>, mark: Date): set<int>
  {
    set i | 0 <= i < |days| && days[i].Some? && SameDay(days[i].value, mark)
  }

  /** A grid highlights exactly one cell for a date of its own month, the
      one holding that day after the blanks, and none for any other date:
      today, or the selection, is marked only in its own month. */
  lemma MarkedCells(days: seq<Option<Date>>, blanks: int, y: int, m: int, mark: Date)
    requires 0 <= m < 12 && IsGrid(days, blanks, y, m) && ValidDate(mark)
    ensures mark.year == y && mark.month == m ==> Marked(days, mark) == {blanks + mark.day - 1}
    ensures mark.year != y || mark.month != m ==> Marked(days, mark) == {}
  {
    if mark.year == y && mark.month == m {
      var k := blanks + mark.day - 1;
      assert days[k] == Some(Date(y, m, mark.day));
      assert k in Marked(days, mark);
      forall i | i in Marked(days, mark)
        ensures i == k
      {
        assert days[i] == Some(Date(y, m, i - blanks + 1));
      }
    }
  }

  /** `formatDay(date)`: the day of the month as two digits. */
  function FormatDay(d: Date): (r: string)
    requires ValidDate(d)
    ensures |r| == 2 && AllDigits(r) && DecimalValue(r) == d.day
  {
    TwoDigits(d.day);
    PadStart2(NatToString(d.day))
  }
}
