/** The month view of app/calendar/page.tsx, with the proleptic Gregorian
    calendar that JavaScript's Date supplies: month lengths, the weekday of
    the first of the month, the grid of day cells, the status colour of a
    day and the entry shown when a day is clicked.

    Dates are day numbers: `DayNumber` counts days from 1 January of year
    0, so consecutive calendar days have consecutive numbers. */
module Calendar {
  import opened Types
  import opened Utils
  import opened EntryOrder

  // ----- The Gregorian calendar -----

  predicate IsLeapYear(y: int) {
    y % 4 == 0 && (y % 100 != 0 || y % 400 == 0)
  }

  function YearLength(y: int): int {
    if IsLeapYear(y) then 366 else 365
  }

  /** The length of month `m` (0 = January) of year `y`. */
  function DaysInMonth(y: int, m: int): (n: int)
    requires 0 <= m < 12
    ensures 28 <= n <= 31
  {
    if m == 1 then (if IsLeapYear(y) then 29 else 28)
    else if m == 3 || m == 5 || m == 8 || m == 10 then 30
    else 31
  }

  /** Days from 1 January of year 0 to 1 January of year `y`: 365 a year
      plus one for each leap year before `y`. */
  function DaysBeforeYear(y: nat): int {
    365 * y + (y + 3) / 4 - (y + 99) / 100 + (y + 399) / 400
  }

  /** Days of year `y` before the first of month `m`. */
  function DaysBeforeMonth(y: int, m: int): (r: int)
    requires 0 <= m <= 12
    ensures 28 * m <= r <= 31 * m
  {
    if m == 0 then 0 else DaysBeforeMonth(y, m - 1) + DaysInMonth(y, m - 1)
  }

  predicate ValidDate(c: CivilDate) {
    c.month < 12 && 1 <= c.day <= DaysInMonth(c.year, c.month)
  }

  function DayNumber(c: CivilDate): int
    requires c.month < 12
  {
    DaysBeforeYear(c.year) + DaysBeforeMonth(c.year, c.month) + c.day - 1
  }

  /** `getDay()`: 0 for Sunday up to 6 for Saturday; 1 January of year 0
      was a Saturday. */
  function Weekday(dayNumber: int): (w: int)
    ensures 0 <= w < 7
  {
    (dayNumber + 6) % 7
  }

  /** The calendar day after `c`. */
  function NextDate(c: CivilDate): CivilDate
    requires ValidDate(c)
  {
    if c.day < DaysInMonth(c.year, c.month) then CivilDate(c.year, c.month, c.day + 1)
    else if c.month < 11 then CivilDate(c.year, c.month + 1, 1)
    else CivilDate(c.year + 1, 0, 1)
  }

  /** Moving from year `y` to `y + 1` passes one multiple of `k` exactly
      when `k` divides `y`. */
  lemma DivisionStep4(y: nat)
    ensures (y + 4) / 4 - (y + 3) / 4 == if y % 4 == 0 then 1 else 0
  {
  }

  lemma DivisionStep100(y: nat)
    ensures (y + 100) / 100 - (y + 99) / 100 == if y % 100 == 0 then 1 else 0
  {
  }

  lemma DivisionStep400(y: nat)
    ensures (y + 400) / 400 - (y + 399) / 400 == if y % 400 == 0 then 1 else 0
  {
  }

  /** A multiple of 400 is a multiple of 100, and a multiple of 100 a
      multiple of 4. */
  lemma DivisibilityChain(y: nat)
    ensures y % 400 == 0 ==> y % 100 == 0
    ensures y % 100 == 0 ==> y % 4 == 0
  {
    if y % 400 == 0 {
      assert y == 100 * (4 * (y / 400));
    }
    if y % 100 == 0 {
      assert y == 4 * (25 * (y / 100));
    }
  }

  /** Each year adds its own length. */
  lemma DaysBeforeNextYear(y: nat)
    ensures DaysBeforeYear(y + 1) == DaysBeforeYear(y) + YearLength(y)
  {
    DivisionStep4(y);
    DivisionStep100(y);
    DivisionStep400(y);
    DivisibilityChain(y);
    var a, b, c := (y + 4) / 4 - (y + 3) / 4, (y + 100) / 100 - (y + 99) / 100, (y + 400) / 400 - (y + 399) / 400;
    assert DaysBeforeYear(y + 1) - DaysBeforeYear(y) == 365 + a - b + c;
  }

  /** The twelve months fill the year. */
  lemma MonthsFillYear(y: int)
    ensures DaysBeforeMonth(y, 12) == YearLength(y)
  {
    var feb := DaysInMonth(y, 1);
    assert DaysBeforeMonth(y, 1) == 31;
    assert DaysBeforeMonth(y, 2) == 31 + feb;
    assert DaysBeforeMonth(y, 3) == 62 + feb;
    assert DaysBeforeMonth(y, 4) == 92 + feb;
    assert DaysBeforeMonth(y, 5) == 123 + feb;
    assert DaysBeforeMonth(y, 6) == 153 + feb;
    assert DaysBeforeMonth(y, 7) == 184 + feb;
    assert DaysBeforeMonth(y, 8) == 215 + feb;
    assert DaysBeforeMonth(y, 9) == 245 + feb;
    assert DaysBeforeMonth(y, 10) == 276 + feb;
    assert DaysBeforeMonth(y, 11) == 306 + feb;
  }

  /** The day after a valid date is a valid date, one day number later. */
  lemma NextDateIsNextDay(c: CivilDate)
    requires ValidDate(c)
    ensures ValidDate(NextDate(c))
    ensures DayNumber(NextDate(c)) == DayNumber(c) + 1
  {
    if c.day == DaysInMonth(c.year, c.month) && c.month == 11 {
      DaysBeforeNextYear(c.year);
      MonthsFillYear(c.year);
    }
  }

  /** `new Date(year, month + 1, 0)` is the last day of `month`: the day
      before the first of the following month, in the following year after
      December. */
  lemma LastDayPrecedesNextMonth(year: nat, month: nat)
    requires month < 12
    ensures var last := CivilDate(year, month, DaysInMonth(year, month));
      var first := if month < 11 then CivilDate(year, month + 1, 1) else CivilDate(year + 1, 0, 1);
      ValidDate(last) && ValidDate(first) && DayNumber(last) + 1 == DayNumber(first)
  {
    NextDateIsNextDay(CivilDate(year, month, DaysInMonth(year, month)));
  }

  lemma {:induction false} DaysBeforeMonthBounds(y: int, m: int)
    requires 0 <= m < 12
    ensures 0 <= DaysBeforeMonth(y, m) && DaysBeforeMonth(y, m) + DaysInMonth(y, m) <= YearLength(y)
    decreases 12 - m
  {
    if m < 11 {
      DaysBeforeMonthBounds(y, m + 1);
    } else {
      MonthsFillYear(y);
    }
  }

  lemma {:induction false} DaysBeforeMonthMonotone(y: int, m1: int, m2: int)
    requires 0 <= m1 <= m2 <= 12
    ensures DaysBeforeMonth(y, m1) + (if m1 < m2 then DaysInMonth(y, m1) else 0) <= DaysBeforeMonth(y, m2)
    decreases m2 - m1
  {
    if m1 < m2 {
      DaysBeforeMonthMonotone(y, m1 + 1, m2);
    }
  }

  lemma {:induction false} DaysBeforeYearMonotone(y1: nat, y2: nat)
    requires y1 < y2
    ensures DaysBeforeYear(y1) + YearLength(y1) <= DaysBeforeYear(y2)
    decreases y2 - y1
  {
    DaysBeforeNextYear(y1);
    if y1 + 1 < y2 {
      DaysBeforeYearMonotone(y1 + 1, y2);
    }
  }

  /** A valid date falls inside its own year. */
  lemma DayNumberInYear(c: CivilDate)
    requires ValidDate(c)
    ensures DaysBeforeYear(c.year) <= DayNumber(c) < DaysBeforeYear(c.year) + YearLength(c.year)
  {
    DaysBeforeMonthBounds(c.year, c.month);
  }

  /** Day numbers follow calendar order, so different valid dates have
      different numbers. */
  lemma DayNumberOrdered(a: CivilDate, b: CivilDate)
    requires ValidDate(a) && ValidDate(b)
    requires a.year < b.year
          || (a.year == b.year && a.month < b.month)
          || (a.year == b.year && a.month == b.month && a.day < b.day)
    ensures DayNumber(a) < DayNumber(b)
  {
    DayNumberInYear(a);
    DayNumberInYear(b);
    if a.year < b.year {
      DaysBeforeYearMonotone(a.year, b.year);
    } else if a.month < b.month {
      DaysBeforeMonthMonotone(a.year, a.month, b.month);
    }
  }

  lemma DayNumberInjective(a: CivilDate, b: CivilDate)
    requires ValidDate(a) && ValidDate(b)
    requires DayNumber(a) == DayNumber(b)
    ensures a == b
  {
    if a.year != b.year || a.month != b.month || a.day != b.day {
      if a.year < b.year || (a.year == b.year && a.month < b.month)
         || (a.year == b.year && a.month == b.month && a.day < b.day) {
        DayNumberOrdered(a, b);
      } else {
        DayNumberOrdered(b, a);
      }
    }
  }

  /** For dates with four-digit years, the `YYYY-MM-DD` text the pages
      compare and the day number pick out the same day. */
  lemma DateTextMatchesDayNumber(a: CivilDate, b: CivilDate)
    requires ValidDate(a) && ValidDate(b)
    requires 1000 <= a.year <= 9999 && 1000 <= b.year <= 9999
    ensures FormatDate(a) == FormatDate(b) <==> DayNumber(a) == DayNumber(b)
  {
    if FormatDate(a) == FormatDate(b) {
      FormatDateInjective(a, b);
    }
    if DayNumber(a) == DayNumber(b) {
      DayNumberInjective(a, b);
    }
  }

  /** February has 29 days exactly in leap years; 1900 was not one, 2000
      and 2024 were. */
  lemma LeapRule(y: int)
    ensures DaysInMonth(y, 1) == 29 <==> IsLeapYear(y)
    ensures YearLength(y) == 366 <==> IsLeapYear(y)
    ensures !IsLeapYear(1900) && IsLeapYear(2000) && IsLeapYear(2024) && !IsLeapYear(2023)
  {
  }

  /** 1 January 2000 was a Saturday and 1 October 2026 a Thursday. */
  lemma WeekdayExamples()
    ensures Weekday(DayNumber(CivilDate(2000, 0, 1))) == 6
    ensures Weekday(DayNumber(CivilDate(2026, 9, 1))) == 4
  {
    assert DaysBeforeYear(2000) == 730485;
    assert DaysBeforeYear(2026) == 739982;
    assert DaysBeforeMonth(2026, 9) == 273;
  }

  // ----- The month view -----

  datatype MonthView = MonthView(daysInMonth: int, startingDayOfWeek: int, year: nat, month: nat)

  /** The year `new Date(year, month, day)` builds: years 0 to 99 are read
      as 1900 to 1999. */
  function FullYear(year: nat): (y: nat)
    ensures year <= 99 ==> y == 1900 + year
    ensures year > 99 ==> y == year
  {
    if year <= 99 then 1900 + year else year
  }

  /** `getDaysInMonth(date)` for a date in month `month` (0-based) of `year`:
      the first and the last day are built with `new Date`, so a year below
      100 is looked up in the twentieth century, while the year returned is
      the one given. */
  function GetDaysInMonth(year: nat, month: nat): (v: MonthView)
    requires month < 12
    ensures v.year == year && v.month == month
    ensures 28 <= v.daysInMonth <= 31 && 0 <= v.startingDayOfWeek < 7
    ensures v.daysInMonth == DaysInMonth(FullYear(year), month)
    ensures v.startingDayOfWeek == Weekday(DayNumber(CivilDate(FullYear(year), month, 1)))
  {
    var y := FullYear(year);
    MonthView(DaysInMonth(y, month), Weekday(DayNumber(CivilDate(y, month, 1))), year, month)
  }

  /** Year 0 was a leap year, but the page shows February of year 0 with
      the 28 days of February 1900, starting on a Thursday. */
  lemma TwoDigitYearExample()
    ensures DaysInMonth(0, 1) == 29
    ensures GetDaysInMonth(0, 1).daysInMonth == 28
    ensures GetDaysInMonth(0, 1).startingDayOfWeek == 4
  {
    assert DaysBeforeYear(1900) == 693961;
    assert DaysBeforeMonth(1900, 1) == 31;
  }

  /** The grid cells: `startingDayOfWeek` blanks, then the days 1 to
      `daysInMonth`. */
  method BuildDays(startingDayOfWeek: nat, daysInMonth: nat) returns (days: seq<Option<int>>)
    ensures |days| == startingDayOfWeek + daysInMonth
    ensures forall i :: 0 <= i < |days| && i < startingDayOfWeek ==> days[i] == None
    ensures forall i :: 0 <= i < |days| && i >= startingDayOfWeek ==> days[i] == Some(i - startingDayOfWeek + 1)
  {
    days := [];
    var i := 0;
    while i < startingDayOfWeek
      invariant 0 <= i <= startingDayOfWeek && |days| == i
      invariant forall j :: 0 <= j < |days| ==> days[j] == None
    {
      days := days + [None];
      i := i + 1;
    }
    var lead := |days|;
    var day := 1;
    while day <= daysInMonth
      invariant 1 <= day <= daysInMonth + 1 && |days| == lead + day - 1
      invariant forall j :: 0 <= j < lead ==> days[j] == None
      invariant forall j :: lead <= j < |days| ==> days[j] == Some(j - lead + 1)
    {
      days := days + [Some(day)];
      day := day + 1;
    }
  }

  /** In a seven-column grid every day of the month sits in the column of
      its weekday. */
  lemma GridColumnIsWeekday(year: nat, month: nat, day: nat)
    requires month < 12 && 1 <= day <= GetDaysInMonth(year, month).daysInMonth
    ensures (GetDaysInMonth(year, month).startingDayOfWeek + day - 1) % 7
         == Weekday(DayNumber(CivilDate(FullYear(year), month, day)))
  {
    var y := FullYear(year);
    DayNumberWithinMonth(y, month, day);
    ColumnShift(DayNumber(CivilDate(y, month, 1)), DayNumber(CivilDate(y, month, day)), day);
  }

  /** Day `day` of a month is `day - 1` days after its first. */
  lemma DayNumberWithinMonth(year: nat, month: nat, day: nat)
    requires month < 12
    ensures DayNumber(CivilDate(year, month, day)) == DayNumber(CivilDate(year, month, 1)) + (day - 1)
  {
  }

  /** `day - 1` days after the first is `day - 1` columns further on,
      modulo the week. */
  lemma ColumnShift(n: int, m: int, day: int)
    requires m == n + (day - 1)
    ensures (Weekday(n) + day - 1) % 7 == Weekday(m)
  {
  }

  /** The text the page builds for day `day` of the month shown: the same
      text `formatDate` gives. */
  function DateKey(year: nat, month: nat, day: nat): (s: string)
    ensures s == FormatDate(CivilDate(year, month, day))
  {
    NatToString(year) + "-" + PadStart2(NatToString(month + 1)) + "-" + PadStart2(NatToString(day))
  }

  // ----- Day status and the clicked day -----

  datatype EntryStatus = Completed | Partial | Missed

  function AnyItemChecked(items: seq<CheckedItem>): (b: bool)
    ensures b <==> exists j :: 0 <= j < |items| && items[j].checked
  {
    if items == [] then false
    else items[0].checked || AnyItemChecked(items[1..])
  }

  /** `sections.some(s => s.items.some(i => i.checked))`. */
  function AnyChecked(sections: seq<DailySection>): (b: bool)
    ensures b <==> exists k, j :: 0 <= k < |sections| && 0 <= j < |sections[k].items| && sections[k].items[j].checked
  {
    if sections == [] then false
    else if AnyItemChecked(sections[0].items) then true
    else
      var rest := AnyChecked(sections[1..]);
      assert rest <==> exists k, j :: 1 <= k < |sections| && 0 <= j < |sections[k].items| && sections[k].items[j].checked by {
        if rest {
          var k, j :| 0 <= k < |sections[1..]| && 0 <= j < |sections[1..][k].items| && sections[1..][k].items[j].checked;
          assert sections[k + 1] == sections[1..][k];
        }
        if exists k, j :: 1 <= k < |sections| && 0 <= j < |sections[k].items| && sections[k].items[j].checked {
          var k, j :| 1 <= k < |sections| && 0 <= j < |sections[k].items| && sections[k].items[j].checked;
          assert sections[1..][k - 1] == sections[k];
        }
      }
      rest
  }

  /** `getEntryStatus(date)`: completed when the stored day is marked
      complete, partial when some item is checked, missed otherwise or when
      there is no entry. */
  function GetEntryStatus(entries: seq<DailyEntry>, date: int): (r: EntryStatus)
    ensures FindEntry(entries, date).None? ==> r == Missed
    ensures r == Completed <==> FindEntry(entries, date).Some? && FindEntry(entries, date).value.dayComplete
    ensures r == Partial <==> FindEntry(entries, date).Some? && !FindEntry(entries, date).value.dayComplete
                              && AnyChecked(FindEntry(entries, date).value.sections)
  {
    var entry := FindEntry(entries, date);
    if entry.None? then Missed
    else if entry.value.dayComplete then Completed
    else if AnyChecked(entry.value.sections) then Partial
    else Missed
  }

  /** A freshly created day shows as missed. */
  lemma EmptyEntryIsMissed(entries: seq<DailyEntry>, date: int, t: Template)
    requires FindEntry(entries, date) == Some(CreateEmptyEntry(date, t))
    ensures GetEntryStatus(entries, date) == Missed
  {
  }

  /** `handleDayClick(day)` for a day of the grid: the entry of that day of
      the month shown, if any. */
  function HandleDayClick(entries: seq<DailyEntry>, year: nat, month: nat, day: nat): (r: Option<DailyEntry>)
    requires month < 12 && 1 <= day <= GetDaysInMonth(year, month).daysInMonth
    ensures r.Some? ==> r.value in entries && r.value.date == DayNumber(CivilDate(year, month, day))
    ensures r.None? <==> forall e :: e in entries ==> e.date != DayNumber(CivilDate(year, month, day))
  {
    FindEntry(entries, DayNumber(CivilDate(year, month, day)))
  }
}
