/** The proleptic Gregorian calendar as the ECMAScript `Date` object computes it
    (ECMA-262, section 21.4.1): day numbers counted from 1 January 1970, the year,
    month and date of a day number, and the day number of a year, month and date.
    A `Date` is modelled at day granularity: a normalised (year, month, day) triple
    whose month is zero-based. */
module Gregorian {
  import opened Text

  /** Leap years: divisible by 4, except centuries not divisible by 400. */
  predicate IsLeapYear(y: int)
  {
    y % 4 == 0 && (y % 100 != 0 || y % 400 == 0)
  }

  /** DaysInYear (ECMA-262, section 21.4.1.3). */
  function DaysInYear(y: int): (n: int)
    ensures n == 365 || n == 366
    ensures n == 366 <==> IsLeapYear(y)
  {
    if IsLeapYear(y) then 366 else 365
  }

  /** A multiple of 400 is a multiple of 100 and of 4. */
  lemma MultipleOf400(y: int)
    requires y % 400 == 0
    ensures y % 100 == 0 && y % 4 == 0
  {
    var q := y / 400;
    assert y == 100 * (4 * q) && y == 4 * (100 * q);
  }

  /** A multiple of 100 is a multiple of 4. */
  lemma MultipleOf100(y: int)
    requires y % 100 == 0
    ensures y % 4 == 0
  {
    var q := y / 100;
    assert y == 4 * (25 * q);
  }

  /** A year has 365 days, one more if divisible by 4, one fewer if also by 100, one
      more again if also by 400. */
  lemma DaysInYearCorrections(y: int)
    ensures DaysInYear(y) == 365 + (if y % 4 == 0 then 1 else 0) - (if y % 100 == 0 then 1 else 0)
                                 + (if y % 400 == 0 then 1 else 0)
  {
    if y % 400 == 0 {
      MultipleOf400(y);
    } else if y % 100 == 0 {
      MultipleOf100(y);
    }
  }

  /** The day number of 1 January of `y`: each year starts where the year before it
      ends, and 1970 starts at day 0. DayFromYearClosedForm shows this is the formula
      of DayFromYear (ECMA-262, section 21.4.1.3). */
  function DayFromYear(y: int): int
    decreases if y < 1970 then 1970 - y else y - 1970
  {
    if y == 1970 then 0
    else if y > 1970 then DayFromYear(y - 1) + DaysInYear(y - 1)
    else DayFromYear(y + 1) - DaysInYear(y)
  }

  /** Each year's day numbers follow the previous year's without a gap. */
  lemma DayFromYearStep(y: int)
    ensures DayFromYear(y + 1) == DayFromYear(y) + DaysInYear(y)
  {
  }

  lemma QuadrennialStep(y: int)
    ensures (y - 1968) / 4 == (y - 1969) / 4 + (if y % 4 == 0 then 1 else 0)
  {
  }

  lemma CenturyStep(y: int)
    ensures (y - 1900) / 100 == (y - 1901) / 100 + (if y % 100 == 0 then 1 else 0)
  {
  }

  lemma QuadricentennialStep(y: int)
    ensures (y - 1600) / 400 == (y - 1601) / 400 + (if y % 400 == 0 then 1 else 0)
  {
  }

  /** The closed formula of DayFromYear in ECMA-262, section 21.4.1.3, in which
      Dafny's `/` by a positive constant is the floor the standard asks for. */
  function ClosedFormDayFromYear(y: int): int
  {
    365 * (y - 1970) + (y - 1969) / 4 - (y - 1901) / 100 + (y - 1601) / 400
  }

  /** The closed formula also moves on by the length of each year. */
  lemma ClosedFormStep(y: int)
    ensures ClosedFormDayFromYear(y + 1) == ClosedFormDayFromYear(y) + DaysInYear(y)
  {
    QuadrennialStep(y);
    CenturyStep(y);
    QuadricentennialStep(y);
    DaysInYearCorrections(y);
  }

  /** DayFromYear is the closed formula of ECMA-262. */
  lemma {:induction false} DayFromYearClosedForm(y: int)
    ensures DayFromYear(y) == ClosedFormDayFromYear(y)
    decreases if y < 1970 then 1970 - y else y - 1970
  {
    if y > 1970 {
      DayFromYearClosedForm(y - 1);
      ClosedFormStep(y - 1);
    } else if y < 1970 {
      DayFromYearClosedForm(y + 1);
      ClosedFormStep(y);
    }
  }

  /** Later years start later. */
  lemma {:induction false} DayFromYearMonotone(a: int, b: int)
    requires a < b
    ensures DayFromYear(a) + 365 <= DayFromYear(b)
    decreases b - a
  {
    DayFromYearStep(a);
    if a + 1 < b {
      DayFromYearMonotone(a + 1, b);
    }
  }

  /** Length of a (normalised, zero-based) month. */
  function MonthLength(y: int, m: int): (n: int)
    requires 0 <= m < 12
    ensures 28 <= n <= 31
    ensures m == 1 ==> (n == 29 <==> IsLeapYear(y))
  {
    if m == 1 then (if IsLeapYear(y) then 29 else 28)
    else if m == 3 || m == 5 || m == 8 || m == 10 then 30
    else 31
  }

  /** Days of year `y` before month `m` begins (the table of MonthFromTime,
      ECMA-262, section 21.4.1.4): each month starts where the month before it ends;
      month 12 stands for the end of the year. */
  function DaysBeforeMonth(y: int, m: int): (n: int)
    requires 0 <= m <= 12
    ensures 0 <= n <= 31 * m
  {
    if m == 0 then 0 else DaysBeforeMonth(y, m - 1) + MonthLength(y, m - 1)
  }

  /** The months of a year add up to the year. */
  lemma DaysBeforeYearEnd(y: int)
    ensures DaysBeforeMonth(y, 12) == DaysInYear(y)
  {
    var leap := if IsLeapYear(y) then 1 else 0;
    assert DaysBeforeMonth(y, 2) == 59 + leap;
    assert DaysBeforeMonth(y, 4) == 120 + leap;
    assert DaysBeforeMonth(y, 6) == 181 + leap;
    assert DaysBeforeMonth(y, 8) == 243 + leap;
    assert DaysBeforeMonth(y, 10) == 304 + leap;
  }

  /** Later months of one year start later. */
  lemma {:induction false} DaysBeforeMonthMonotone(y: int, a: int, b: int)
    requires 0 <= a < b <= 12
    ensures DaysBeforeMonth(y, a + 1) <= DaysBeforeMonth(y, b)
    decreases b - a
  {
    if a + 1 < b {
      DaysBeforeMonthMonotone(y, a, b - 1);
    }
  }

  /** MonthFromTime (ECMA-262, section 21.4.1.4): the month, searched from `m` on,
      in which day `dayInYear` of year `y` falls. */
  function MonthInYear(y: int, dayInYear: int, m: int): (r: int)
    requires 0 <= m < 12
    requires DaysBeforeMonth(y, m) <= dayInYear < DaysInYear(y)
    ensures m <= r < 12
    ensures DaysBeforeMonth(y, r) <= dayInYear < DaysBeforeMonth(y, r + 1)
    decreases 12 - m
  {
    DaysBeforeYearEnd(y);
    if dayInYear < DaysBeforeMonth(y, m + 1) then m else MonthInYear(y, dayInYear, m + 1)
  }

  /** A year and a zero-based month. */
  datatype YearMonth = YearMonth(year: int, month: int)

  /** The months from year 0, January, to a year and a month index. */
  function MonthsFromEpoch(year: int, month: int): int
  {
    year * 12 + month
  }

  /** A month index outside 0..11 carried into the year: the year and month in 0..11
      that lie as many months from year 0 as (year, month). */
  function Carry(year: int, month: int): (r: YearMonth)
    ensures 0 <= r.month < 12
    ensures MonthsFromEpoch(r.year, r.month) == MonthsFromEpoch(year, month)
    decreases if month < 0 then 12 - month else month
  {
    if month < 0 then Carry(year - 1, month + 12)
    else if month >= 12 then Carry(year + 1, month - 12)
    else YearMonth(year, month)
  }

  /** Only one year and month in 0..11 lie a given number of months from year 0. */
  lemma CarryUnique(year: int, month: int, ym: YearMonth)
    requires 0 <= ym.month < 12
    requires MonthsFromEpoch(ym.year, ym.month) == MonthsFromEpoch(year, month)
    ensures Carry(year, month) == ym
  {
  }

  /** The carry is ECMA-262's `ym = year + floor(month / 12)`, `mn = month modulo 12`
      (section 21.4.1.28). */
  lemma CarryIsFloorDivision(year: int, month: int)
    ensures Carry(year, month) == YearMonth(year + month / 12, month % 12)
  {
    CarryUnique(year, month, YearMonth(year + month / 12, month % 12));
  }

  /** A calendar day: a year, a zero-based month and a one-based day of the month. */
  datatype CalendarDate = CalendarDate(year: int, month: int, day: int)
  {
    /** The date exists: what every `Date` object's year, month and date satisfy. */
    predicate Valid()
    {
      0 <= month < 12 && 1 <= day <= MonthLength(year, month)
    }
  }

  /** MakeDay (ECMA-262, section 21.4.1.28): months outside 0..11 carry into the year,
      and days outside the month run on into the neighbouring months. */
  function MakeDay(year: int, month: int, date: int): int
  {
    var c := Carry(year, month);
    DayFromYear(c.year) + DaysBeforeMonth(c.year, c.month) + date - 1
  }

  /** For a month in 0..11 MakeDay needs no carrying. */
  lemma MakeDayInYear(year: int, month: int, date: int)
    requires 0 <= month < 12
    ensures MakeDay(year, month, date) == DayFromYear(year) + DaysBeforeMonth(year, month) + date - 1
  {
    CarryUnique(year, month, YearMonth(year, month));
  }

  /** Day `date` of a month is `date - 1` days after its first day. */
  lemma MakeDayOffset(year: int, month: int, date: int)
    ensures MakeDay(year, month, date) == MakeDay(year, month, 1) + date - 1
  {
  }

  /** The day number of a date. */
  function DayNumber(d: CalendarDate): int
  {
    MakeDay(d.year, d.month, d.day)
  }

  /** MonthFromTime and DateFromTime (ECMA-262, sections 21.4.1.4 and 21.4.1.5): the
      date of the day `dayInYear` days after 1 January of year `y`. */
  function DateInYear(y: int, dayInYear: int): (d: CalendarDate)
    requires 0 <= dayInYear < DaysInYear(y)
    ensures d.Valid()
    ensures DayNumber(d) == DayFromYear(y) + dayInYear
  {
    DaysBeforeYearEnd(y);
    var m := MonthInYear(y, dayInYear, 0);
    var date := dayInYear - DaysBeforeMonth(y, m) + 1;
    MakeDayInYear(y, m, date);
    CalendarDate(y, m, date)
  }

  /** YearFromTime (ECMA-262, section 21.4.1.3) searching forward from year `y`, then
      the date within the year found. */
  function DateAtOrAfter(t: int, y: int): (d: CalendarDate)
    requires DayFromYear(y) <= t
    ensures d.Valid()
    ensures DayNumber(d) == t
    decreases t - DayFromYear(y)
  {
    DayFromYearStep(y);
    if t < DayFromYear(y + 1) then DateInYear(y, t - DayFromYear(y)) else DateAtOrAfter(t, y + 1)
  }

  /** YearFromTime searching backward from year `y`, then the date within the year found. */
  function DateBefore(t: int, y: int): (d: CalendarDate)
    requires t < DayFromYear(y + 1)
    ensures d.Valid()
    ensures DayNumber(d) == t
    decreases DayFromYear(y + 1) - t
  {
    DayFromYearStep(y);
    if DayFromYear(y) <= t then DateInYear(y, t - DayFromYear(y)) else DateBefore(t, y - 1)
  }

  /** The date of day `t`: the year found from 1970 on, forward or backward. */
  function DateOfDay(t: int): (d: CalendarDate)
    ensures d.Valid()
    ensures DayNumber(d) == t
  {
    if t >= 0 then DateAtOrAfter(t, 1970) else DateBefore(t, 1969)
  }

  /** A valid date's day number lies within its month and within its year. */
  lemma DayNumberBounds(d: CalendarDate)
    requires d.Valid()
    ensures DayFromYear(d.year) + DaysBeforeMonth(d.year, d.month) <= DayNumber(d)
    ensures DayNumber(d) < DayFromYear(d.year) + DaysBeforeMonth(d.year, d.month + 1)
    ensures DayNumber(d) < DayFromYear(d.year + 1)
  {
    MakeDayInYear(d.year, d.month, d.day);
    DayFromYearStep(d.year);
    DaysBeforeYearEnd(d.year);
    if d.month < 11 {
      DaysBeforeMonthMonotone(d.year, d.month, 12);
    }
  }

  /** Two valid dates with the same day number are the same date. */
  lemma DayNumberInjective(a: CalendarDate, b: CalendarDate)
    requires a.Valid() && b.Valid()
    requires DayNumber(a) == DayNumber(b)
    ensures a == b
  {
    DayNumberBounds(a);
    DayNumberBounds(b);
    if a.year < b.year {
      if a.year + 1 < b.year { DayFromYearMonotone(a.year + 1, b.year); }
    } else if b.year < a.year {
      if b.year + 1 < a.year { DayFromYearMonotone(b.year + 1, a.year); }
    }
    assert a.year == b.year;
    if a.month < b.month {
      DaysBeforeMonthMonotone(a.year, a.month, b.month);
    } else if b.month < a.month {
      DaysBeforeMonthMonotone(a.year, b.month, a.month);
    }
    assert a.month == b.month;
    MakeDayInYear(a.year, a.month, a.day);
    MakeDayInYear(b.year, b.month, b.day);
  }

  /** Each valid date is the date of its own day number. */
  lemma DateOfDayNumber(d: CalendarDate)
    requires d.Valid()
    ensures DateOfDay(DayNumber(d)) == d
  {
    DayNumberInjective(DateOfDay(DayNumber(d)), d);
  }

  /** The date on day number MakeDay(year, month, date), the year taken as it is:
      months and days outside their range run on into the neighbouring months and
      years. `setMonth` builds its result this way. */
  function CivilDate(year: int, month: int, date: int): (d: CalendarDate)
    ensures d.Valid()
    ensures DayNumber(d) == MakeDay(year, month, date)
  {
    DateOfDay(MakeDay(year, month, date))
  }

  /** CivilDate gives the one valid date with the day number MakeDay gives. */
  lemma CivilDateIs(year: int, month: int, date: int, d: CalendarDate)
    requires d.Valid() && DayNumber(d) == MakeDay(year, month, date)
    ensures CivilDate(year, month, date) == d
  {
    DayNumberInjective(CivilDate(year, month, date), d);
  }

  /** The year the `Date` constructor uses for the year argument `year`
      (ECMA-262, section 21.4.2.1, MakeFullYear): a year in 0..99 is read as
      1900 + year, every other year as it is. */
  function MakeFullYear(year: int): (y: int)
    ensures 0 <= year <= 99 ==> 1900 <= y <= 1999 && y % 100 == year
    ensures !(0 <= year <= 99) ==> y == year
  {
    if 0 <= year <= 99 then 1900 + year else year
  }

  /** `new Date(year, month, date)`: the year read by MakeFullYear, then months and
      days outside their range carried by MakeDay. */
  function NewDate(year: int, month: int, date: int): (d: CalendarDate)
    ensures d.Valid()
    ensures DayNumber(d) == MakeDay(MakeFullYear(year), month, date)
  {
    CivilDate(MakeFullYear(year), month, date)
  }

  /** `new Date(year, month, date)` is the one valid date on day number
      MakeDay(MakeFullYear(year), month, date). */
  lemma NewDateIs(year: int, month: int, date: int, d: CalendarDate)
    requires d.Valid() && DayNumber(d) == MakeDay(MakeFullYear(year), month, date)
    ensures NewDate(year, month, date) == d
  {
    CivilDateIs(MakeFullYear(year), month, date, d);
  }

  /** A day within its month, built with the constructor, is that day of that month
      in the year MakeFullYear reads. */
  lemma NewDateInMonth(year: int, month: int, date: int)
    requires 0 <= month < 12 && 1 <= date <= MonthLength(MakeFullYear(year), month)
    ensures NewDate(year, month, date) == CalendarDate(MakeFullYear(year), month, date)
  {
    var y := MakeFullYear(year);
    NewDateIs(year, month, date, CalendarDate(y, month, date));
  }

  /** Building a valid date with the constructor gives it back outside the years
      0..99; a date of a year in 0..99 moves to the same day of 1900 + year, and
      29 February of a year whose 1900 + year is not a leap year moves on to the
      1st of March. */
  lemma NewDateOfValid(d: CalendarDate)
    requires d.Valid()
    ensures !(0 <= d.year <= 99) ==> NewDate(d.year, d.month, d.day) == d
    ensures d.day <= MonthLength(MakeFullYear(d.year), d.month) ==>
              NewDate(d.year, d.month, d.day) == CalendarDate(MakeFullYear(d.year), d.month, d.day)
    ensures d.day > MonthLength(MakeFullYear(d.year), d.month) ==>
              NewDate(d.year, d.month, d.day) == CalendarDate(MakeFullYear(d.year), 2, 1)
  {
    var y := MakeFullYear(d.year);
    if d.day <= MonthLength(y, d.month) {
      NewDateInMonth(d.year, d.month, d.day);
    } else {
      assert d.month == 1 && d.day == 29 && MonthLength(y, 1) == 28;
      MakeDayInYear(y, 1, 29);
      MakeDayInYear(y, 2, 1);
      NewDateIs(d.year, d.month, d.day, CalendarDate(y, 2, 1));
    }
  }

  /** WeekDay (ECMA-262, section 21.4.1.6): 0 is Sunday; 1 January 1970 was a Thursday. */
  function WeekDay(t: int): (w: int)
    ensures 0 <= w < 7
  {
    (t + 4) % 7
  }

  /** `k` days after day `t` the weekday has moved on by `k`, modulo 7. */
  lemma WeekDayAdvance(t: int, k: int)
    ensures WeekDay(t + k) == (WeekDay(t) + k) % 7
  {
  }

  /** Carrying month index `month + 1` is carrying `month` and then stepping one month. */
  lemma CarryNext(year: int, month: int)
    ensures var c := Carry(year, month);
            Carry(year, month + 1) == if c.month == 11 then YearMonth(c.year + 1, 0)
                                      else YearMonth(c.year, c.month + 1)
  {
    var c := Carry(year, month);
    var n := if c.month == 11 then YearMonth(c.year + 1, 0) else YearMonth(c.year, c.month + 1);
    CarryUnique(year, month + 1, n);
  }

  /** The Gregorian length of month `month` of `year`, the month index carried into
      the year first. */
  function DaysInMonth(year: int, month: int): (n: int)
    ensures 28 <= n <= 31
  {
    var c := Carry(year, month);
    MonthLength(c.year, c.month)
  }

  /** The first day of month `month + 1` comes right after the last day of month `month`. */
  lemma MakeDayNextMonth(year: int, month: int)
    ensures MakeDay(year, month + 1, 1) == MakeDay(year, month, 1) + DaysInMonth(year, month)
  {
    var c := Carry(year, month);
    CarryNext(year, month);
    if c.month == 11 {
      DaysBeforeYearEnd(c.year);
      DayFromYearStep(c.year);
    }
  }

  /** The last day of a month, as a date. */
  function LastDayOf(year: int, month: int): (d: CalendarDate)
    ensures d.Valid()
    ensures DayNumber(d) == MakeDay(year, month + 1, 0)
  {
    var c := Carry(year, month);
    var n := MonthLength(c.year, c.month);
    MakeDayInYear(c.year, c.month, n);
    MakeDayNextMonth(year, month);
    MakeDayOffset(year, month + 1, 0);
    CalendarDate(c.year, c.month, n)
  }

  /** `getDaysInMonth(year, month)`: the length of month `month` in the year
      MakeFullYear reads, the month index carried into the year first. */
  function GetDaysInMonth(year: int, month: int): (n: int)
    ensures 28 <= n <= 31
  {
    DaysInMonth(MakeFullYear(year), month)
  }

  /** The source computes the length as the date of day 0 of the following month,
      `new Date(year, month + 1, 0).getDate()`: day 0 is the month's last day, so
      its date is the month's length, in the year MakeFullYear reads. */
  lemma DaysInMonthIsDayZero(year: int, month: int)
    ensures CivilDate(year, month + 1, 0).day == DaysInMonth(year, month)
    ensures NewDate(year, month + 1, 0).day == GetDaysInMonth(year, month)
  {
    CivilDateIs(year, month + 1, 0, LastDayOf(year, month));
    CivilDateIs(MakeFullYear(year), month + 1, 0, LastDayOf(MakeFullYear(year), month));
  }

  /** February has 29 days exactly in leap years; `getDaysInMonth` asks about the
      year MakeFullYear reads. */
  lemma FebruaryLength(y: int)
    ensures DaysInMonth(y, 1) == 29 <==> IsLeapYear(y)
    ensures DaysInMonth(y, 1) == 28 <==> !IsLeapYear(y)
    ensures GetDaysInMonth(y, 1) == 29 <==> IsLeapYear(MakeFullYear(y))
    ensures GetDaysInMonth(y, 1) == 28 <==> !IsLeapYear(MakeFullYear(y))
  {
    CarryUnique(y, 1, YearMonth(y, 1));
    CarryUnique(MakeFullYear(y), 1, YearMonth(MakeFullYear(y), 1));
  }

  /** February 2000 and February 2024 have 29 days; February 1900 and February 2023
      have 28. */
  lemma LeapYearExamples()
    ensures GetDaysInMonth(2000, 1) == 29 && GetDaysInMonth(1900, 1) == 28
    ensures GetDaysInMonth(2024, 1) == 29 && GetDaysInMonth(2023, 1) == 28
  {
    FebruaryLength(2000);
    FebruaryLength(1900);
    FebruaryLength(2024);
    FebruaryLength(2023);
  }

  /** Month lengths by the Gregorian rules: 31 days for January, March, May, July,
      August, October and December, 30 for April, June, September and November, in
      every year. */
  lemma MonthLengths(y: int, m: int)
    requires 0 <= m < 12
    ensures DaysInMonth(y, m) == 30 <==> m in {3, 5, 8, 10}
    ensures DaysInMonth(y, m) == 31 <==> m in {0, 2, 4, 6, 7, 9, 11}
    ensures GetDaysInMonth(y, m) == 30 <==> m in {3, 5, 8, 10}
    ensures GetDaysInMonth(y, m) == 31 <==> m in {0, 2, 4, 6, 7, 9, 11}
  {
    CarryUnique(y, m, YearMonth(y, m));
    CarryUnique(MakeFullYear(y), m, YearMonth(MakeFullYear(y), m));
  }

  /** Twelve months on is the same month of the year after; `getDaysInMonth` moves
      on from the year MakeFullYear reads, so month 12 + m of year 99 is month m of 2000. */
  lemma MonthsForwardYear(y: int, m: int)
    ensures DaysInMonth(y, m + 12) == DaysInMonth(y + 1, m)
    ensures GetDaysInMonth(y, m + 12) == DaysInMonth(MakeFullYear(y) + 1, m)
  {
    CarryUnique(y, m + 12, Carry(y + 1, m));
    CarryUnique(MakeFullYear(y), m + 12, Carry(MakeFullYear(y) + 1, m));
  }

  /** Month -1 is December of the year before (the `month - 1` of getCalendarMatrix
      for a January), which has 31 days. */
  lemma MonthBeforeJanuary(y: int)
    ensures GetDaysInMonth(y, -1) == DaysInMonth(MakeFullYear(y) - 1, 11) == 31
  {
    var fy := MakeFullYear(y);
    CarryUnique(fy, -1, YearMonth(fy - 1, 11));
    CarryUnique(fy - 1, 11, YearMonth(fy - 1, 11));
  }

  /** `Date.prototype.getDay`. */
  function GetDay(d: CalendarDate): (w: int)
    ensures 0 <= w < 7
  {
    WeekDay(DayNumber(d))
  }

  /** The weekday of the first day of month `month` of `year`, the month index
      carried into the year. */
  function MonthStartDay(year: int, month: int): (w: int)
    ensures 0 <= w < 7
  {
    WeekDay(MakeDay(year, month, 1))
  }

  /** `getMonthStartDay(year, month)`: the weekday the month starts on in the year
      MakeFullYear reads. */
  function GetMonthStartDay(year: int, month: int): (w: int)
    ensures 0 <= w < 7
  {
    MonthStartDay(MakeFullYear(year), month)
  }

  /** The source computes the start day as `new Date(year, month, 1).getDay()`: the
      same weekday. It is the weekday of the first of the month the index names,
      once carried into the year. */
  lemma MonthStartDayIsGetDay(year: int, month: int)
    ensures GetDay(NewDate(year, month, 1)) == GetMonthStartDay(year, month)
    ensures var c := Carry(year, month);
            GetDay(CalendarDate(c.year, c.month, 1)) == MonthStartDay(year, month)
  {
    CivilDateFirst(year, month);
  }

  /** Day `d` of a month falls `d - 1` weekdays after the first; outside the years
      0..99 that first is `getMonthStartDay` of the date's year and month. */
  lemma WeekDayOfDate(d: CalendarDate)
    requires d.Valid()
    ensures GetDay(d) == (MonthStartDay(d.year, d.month) + d.day - 1) % 7
    ensures !(0 <= d.year <= 99) ==> GetDay(d) == (GetMonthStartDay(d.year, d.month) + d.day - 1) % 7
  {
    MakeDayOffset(d.year, d.month, d.day);
    WeekDayAdvance(MakeDay(d.year, d.month, 1), d.day - 1);
  }

  /** The next month starts on the weekday after the current month's last day, and
      so does `getMonthStartDay` of the next month index. */
  lemma NextMonthStartDay(year: int, month: int)
    ensures MonthStartDay(year, month + 1) == (MonthStartDay(year, month) + DaysInMonth(year, month)) % 7
    ensures GetMonthStartDay(year, month + 1)
            == (GetMonthStartDay(year, month) + GetDaysInMonth(year, month)) % 7
  {
    assert MonthStartDay(year, month + 1) == (MonthStartDay(year, month) + DaysInMonth(year, month)) % 7 by {
      MakeDayNextMonth(year, month);
      WeekDayAdvance(MakeDay(year, month, 1), DaysInMonth(year, month));
    }
    var fy := MakeFullYear(year);
    assert MonthStartDay(fy, month + 1) == (MonthStartDay(fy, month) + DaysInMonth(fy, month)) % 7 by {
      MakeDayNextMonth(fy, month);
      WeekDayAdvance(MakeDay(fy, month, 1), DaysInMonth(fy, month));
    }
  }

  /** The constructor reads years 0..99 as 1900..1999: February of year 0 has 29
      days, but `getDaysInMonth(0, 1)` is 28, the length of February 1900. */
  lemma TwoDigitYearLength()
    ensures DaysInMonth(0, 1) == 29 && GetDaysInMonth(0, 1) == 28
  {
    FebruaryLength(0);
  }

  /** January of year 50 starts on a Saturday, but `getMonthStartDay(50, 0)` is 0,
      because `new Date(50, 0, 1)` is 1 January 1950, a Sunday. The year is a
      parameter fixed at 50 so that the day numbers are reached through the closed
      formula rather than year by year from 1970. */
  lemma TwoDigitYearStartDay(y: int)
    requires y == 50
    ensures MonthStartDay(y, 0) == 6 && GetMonthStartDay(y, 0) == 0
    ensures NewDate(y, 0, 1) == CalendarDate(1950, 0, 1)
  {
    assert MonthStartDay(y, 0) == 6 by {
      MakeDayInYear(y, 0, 1);
      DayFromYearClosedForm(y);
    }
    assert MonthStartDay(1900 + y, 0) == 0 by {
      MakeDayInYear(1900 + y, 0, 1);
      DayFromYearClosedForm(1900 + y);
    }
    NewDateInMonth(y, 0, 1);
  }

  /** `addMonths(date, amount)`: `setMonth(getMonth() + amount)`, which keeps the
      year as it is (no MakeFullYear) and the date of the month, and lets MakeDay
      normalise the result. */
  function AddMonths(date: CalendarDate, amount: int): (r: CalendarDate)
    ensures r.Valid()
    ensures DayNumber(r) == MakeDay(date.year, date.month + amount, date.day)
  {
    CivilDate(date.year, date.month + amount, date.day)
  }

  /** Day 1 of month index `month`, taken as it is, is the first of the month the
      index names once carried into the year. */
  lemma CivilDateFirst(year: int, month: int)
    ensures var c := Carry(year, month);
            CivilDate(year, month, 1) == CalendarDate(c.year, c.month, 1)
  {
    var c := Carry(year, month);
    var first := CalendarDate(c.year, c.month, 1);
    MakeDayInYear(c.year, c.month, 1);
    assert DayNumber(first) == MakeDay(year, month, 1);
    CivilDateIs(year, month, 1, first);
  }

  /** `new Date(year, month, 1)` is the first of the month the index `month` names,
      carried into the year MakeFullYear reads. */
  lemma NewDateFirst(year: int, month: int)
    ensures var c := Carry(MakeFullYear(year), month);
            NewDate(year, month, 1) == CalendarDate(c.year, c.month, 1)
  {
    CivilDateFirst(MakeFullYear(year), month);
  }

  /** Moving the first of a month by `amount` months lands on the first of the month
      that lies `amount` months on, with the month index carried into the year. */
  lemma AddMonthsFromFirst(date: CalendarDate, amount: int)
    requires date.Valid() && date.day == 1
    ensures var r := AddMonths(date, amount);
            r.day == 1 && YearMonth(r.year, r.month) == Carry(date.year, date.month + amount)
    ensures var r := AddMonths(date, amount);
            MonthsFromEpoch(r.year, r.month) == MonthsFromEpoch(date.year, date.month) + amount
  {
    CivilDateFirst(date.year, date.month + amount);
  }

  /** From a first of month, moving by `a` months and then by `b` months is moving by `a + b`. */
  lemma AddMonthsCompose(date: CalendarDate, a: int, b: int)
    requires date.Valid() && date.day == 1
    ensures AddMonths(AddMonths(date, a), b) == AddMonths(date, a + b)
  {
    var c1 := Carry(date.year, date.month + a);
    var c2 := Carry(date.year, date.month + a + b);
    var mid := CalendarDate(c1.year, c1.month, 1);
    assert AddMonths(date, a) == mid by { AddMonthsFromFirst(date, a); }
    assert Carry(c1.year, c1.month + b) == c2 by { CarryUnique(c1.year, c1.month + b, c2); }
    assert AddMonths(mid, b) == CalendarDate(c2.year, c2.month, 1) by { AddMonthsFromFirst(mid, b); }
    assert AddMonths(date, a + b) == CalendarDate(c2.year, c2.month, 1) by { AddMonthsFromFirst(date, a + b); }
  }

  /** `isSameDate(a, b)`: both present and on the same year, month and day. */
  function IsSameDate(a: Option<CalendarDate>, b: Option<CalendarDate>): (r: bool)
    ensures r <==> a.Some? && b.Some? && a.value == b.value
  {
    if a.None? || b.None? then false
    else a.value.year == b.value.year && a.value.month == b.value.month && a.value.day == b.value.day
  }

  /** `isSameDate` is false when either date is missing, and otherwise holds exactly
      when the two dates name the same day. */
  lemma IsSameDateMeaning(a: Option<CalendarDate>, b: Option<CalendarDate>)
    requires a.Some? ==> a.value.Valid()
    requires b.Some? ==> b.value.Valid()
    ensures a.None? || b.None? ==> !IsSameDate(a, b)
    ensures a.Some? && b.Some? ==> (IsSameDate(a, b) <==> DayNumber(a.value) == DayNumber(b.value))
  {
    if a.Some? && b.Some? && DayNumber(a.value) == DayNumber(b.value) {
      DayNumberInjective(a.value, b.value);
    }
  }

  /** On present dates `isSameDate` is reflexive, symmetric and transitive. */
  lemma IsSameDateEquivalence(a: CalendarDate, b: CalendarDate, c: CalendarDate)
    ensures IsSameDate(Some(a), Some(a))
    ensures IsSameDate(Some(a), Some(b)) == IsSameDate(Some(b), Some(a))
    ensures IsSameDate(Some(a), Some(b)) && IsSameDate(Some(b), Some(c)) ==> IsSameDate(Some(a), Some(c))
  {
  }
}
