/** The month grid the calendar draws: six weeks of seven cells, Sunday first. The
    leading cells pad out the week before the month's first day, the month's days
    follow in order, and trailing cells fill the grid up to 42 cells. */
module CalendarGrid {
  import opened Text
  import opened Gregorian

  /** One square of the grid. `key` is the string React uses to tell cells apart,
      `labelText` the text (the source's `label`) shown in it; only the month's own days carry a date. */
  datatype Cell = Cell(key: string, labelText: string, inCurrentMonth: bool, dateValue: Option<CalendarDate>)

  /** Key of a leading cell: `prev-<month>-<day>`. */
  function PrevKey(month: int, day: int): (key: string)
    ensures |key| > 5 && key[..5] == "prev-"
  {
    "prev-" + IntToString(month) + "-" + IntToString(day)
  }

  /** Key of a day of the month: `<year>-<month>-<day>`. */
  function DayKey(year: int, month: int, day: int): (key: string)
    ensures |key| > 0 && (key[0] == '-' || IsDigit(key[0]))
  {
    IntToStringSign(year);
    IntToString(year) + "-" + IntToString(month) + "-" + IntToString(day)
  }

  /** Key of a trailing cell: `next-<month>-<day>`. */
  function NextKey(month: int, day: int): (key: string)
    ensures |key| > 5 && key[..5] == "next-"
  {
    "next-" + IntToString(month) + "-" + IntToString(day)
  }

  /** What the grid of one month is built from: the month, the weekday of its first
      day, its length and the length of the month before it. */
  datatype MonthFrame = MonthFrame(year: int, month: int, startDay: int, daysInMonth: int, daysInPrevMonth: int)

  /** The frame of month `month` of `year`. */
  function FrameOf(year: int, month: int): (f: MonthFrame)
    ensures 0 <= f.startDay < 7 && 28 <= f.daysInMonth <= 31 && 28 <= f.daysInPrevMonth <= 31
  {
    MonthFrame(year, month, GetMonthStartDay(year, month), GetDaysInMonth(year, month),
               GetDaysInMonth(year, month - 1))
  }

  /** The cell at position `k` of the grid built from frame `f`: only a cell of the
      current month carries a date and a label, and that date is a real one. */
  function CellIn(f: MonthFrame, k: int): (c: Cell)
    ensures c.inCurrentMonth <==> c.dateValue.Some?
    ensures c.inCurrentMonth <==> c.labelText != ""
    ensures c.dateValue.Some? ==> c.dateValue.value.Valid()
  {
    if k < f.startDay then
      Cell(PrevKey(f.month, f.daysInPrevMonth - f.startDay + k + 1), "", false, None)
    else if k < f.startDay + f.daysInMonth then
      var day := k - f.startDay + 1;
      Cell(DayKey(f.year, f.month, day), NatToString(day), true, Some(NewDate(f.year, f.month, day)))
    else
      Cell(NextKey(f.month + 1, k - f.startDay - f.daysInMonth + 1), "", false, None)
  }

  /** The cell at position `k` (0..41, row by row) of the grid of month `month` of
      `year`: the reference the grid-building loops are proved against. Exactly the
      cells of the current month carry a real date. */
  function CellAt(year: int, month: int, k: int): (c: Cell)
    ensures c.inCurrentMonth <==> c.dateValue.Some? && c.dateValue.value.Valid()
  {
    CellIn(FrameOf(year, month), k)
  }

  /** The grid's cells in order, row by row. */
  function Layout(year: int, month: int): (cells: seq<Cell>)
    ensures |cells| == 42
  {
    seq(42, k => CellAt(year, month, k))
  }

  /** `getCalendarMatrix(activeDate)`: the month's first weekday and the lengths of
      the month and of the month before it, then the grid built from them. */
  method GetCalendarMatrix(activeDate: CalendarDate) returns (weeks: seq<seq<Cell>>)
    ensures |weeks| == 6
    ensures forall r :: 0 <= r < |weeks| ==> |weeks[r]| == 7
    ensures forall r, c :: 0 <= r < |weeks| && 0 <= c < |weeks[r]| ==>
              weeks[r][c] == Layout(activeDate.year, activeDate.month)[7 * r + c]
  {
    var year := activeDate.year;
    var month := activeDate.month;
    var startDay := GetMonthStartDay(year, month);
    var daysInMonth := GetDaysInMonth(year, month);
    var daysInPrevMonth := GetDaysInMonth(year, month - 1);
    weeks := FillMatrix(MonthFrame(year, month, startDay, daysInMonth, daysInPrevMonth));
  }

  /** Cells `0..|cells|-1` are the grid's first cells. */
  ghost predicate IsGridPrefix(frame: MonthFrame, cells: seq<Cell>)
  {
    forall k {:trigger CellIn(frame, k)} :: 0 <= k < |cells| ==> cells[k] == CellIn(frame, k)
  }

  /** The body of `getCalendarMatrix` once the frame is known: the leading cells, the
      month's days and the trailing cells pushed one by one into a list of 42, then
      cut into weeks of 7. */
  method FillMatrix(frame: MonthFrame) returns (weeks: seq<seq<Cell>>)
    requires 0 <= frame.startDay < 7 && 28 <= frame.daysInMonth <= 31
    ensures |weeks| == 6
    ensures forall r :: 0 <= r < |weeks| ==> |weeks[r]| == 7
    ensures forall r, c :: 0 <= r < |weeks| && 0 <= c < |weeks[r]| ==> weeks[r][c] == CellIn(frame, 7 * r + c)
  {
    var cells := PushLeadingCells(frame);
    cells := PushMonthDays(frame, cells);
    cells := PushTrailingCells(frame, cells);
    weeks := ChunkWeeks(cells);
    assert forall r, c :: 0 <= r < 6 && 0 <= c < 7 ==> weeks[r][c] == cells[7 * r + c];
  }

  /** The first loop of `getCalendarMatrix`: one cell per weekday before the first. */
  method PushLeadingCells(frame: MonthFrame) returns (cells: seq<Cell>)
    requires 0 <= frame.startDay < 7
    ensures |cells| == frame.startDay && IsGridPrefix(frame, cells)
  {
    var month, startDay, daysInPrevMonth := frame.month, frame.startDay, frame.daysInPrevMonth;
    cells := [];
    var i := 0;
    while i < startDay
      invariant 0 <= i <= startDay
      invariant |cells| == i
      invariant IsGridPrefix(frame, cells)
    {
      var day := daysInPrevMonth - startDay + i + 1;
      cells := cells + [Cell(PrevKey(month, day), "", false, None)];
      i := i + 1;
    }
  }

  /** The second loop: one cell per day of the month, after the leading cells. */
  method PushMonthDays(frame: MonthFrame, leading: seq<Cell>) returns (cells: seq<Cell>)
    requires 0 <= frame.startDay && 0 <= frame.daysInMonth
    requires |leading| == frame.startDay && IsGridPrefix(frame, leading)
    ensures |cells| == frame.startDay + frame.daysInMonth && IsGridPrefix(frame, cells)
  {
    var year, month, daysInMonth := frame.year, frame.month, frame.daysInMonth;
    cells := leading;
    var day := 1;
    while day <= daysInMonth
      invariant 1 <= day <= daysInMonth + 1
      invariant |cells| == frame.startDay + day - 1
      invariant IsGridPrefix(frame, cells)
    {
      cells := cells + [Cell(DayKey(year, month, day), NatToString(day), true, Some(NewDate(year, month, day)))];
      day := day + 1;
    }
  }

  /** The third loop: cells of the next month until the grid holds 42. */
  method PushTrailingCells(frame: MonthFrame, front: seq<Cell>) returns (cells: seq<Cell>)
    requires 0 <= frame.startDay && 0 <= frame.daysInMonth
    requires |front| == frame.startDay + frame.daysInMonth <= 42 && IsGridPrefix(frame, front)
    ensures |cells| == 42 && IsGridPrefix(frame, cells)
  {
    var month := frame.month;
    cells := front;
    var nextDay := 1;
    while |cells| < 42
      invariant |front| <= |cells| <= 42
      invariant nextDay == |cells| - frame.startDay - frame.daysInMonth + 1
      invariant IsGridPrefix(frame, cells)
      decreases 42 - |cells|
    {
      cells := cells + [Cell(NextKey(month + 1, nextDay), "", false, None)];
      nextDay := nextDay + 1;
    }
  }

  /** The slicing loop of `getCalendarMatrix`: consecutive slices of seven cells. */
  method ChunkWeeks(cells: seq<Cell>) returns (weeks: seq<seq<Cell>>)
    requires |cells| == 42
    ensures |weeks| == 6
    ensures forall r :: 0 <= r < |weeks| ==> |weeks[r]| == 7
    ensures forall r, c :: 0 <= r < |weeks| && 0 <= c < |weeks[r]| ==> weeks[r][c] == cells[7 * r + c]
  {
    weeks := [];
    var j := 0;
    while j < |cells|
      invariant 0 <= j <= 42 && j == 7 * |weeks|
      invariant forall r :: 0 <= r < |weeks| ==> |weeks[r]| == 7
      invariant forall r, c :: 0 <= r < |weeks| && 0 <= c < 7 ==> weeks[r][c] == cells[7 * r + c]
    {
      var week := cells[j .. j + 7];
      assert forall c :: 0 <= c < 7 ==> week[c] == cells[j + c];
      weeks := weeks + [week];
      j := j + 7;
    }
  }

  /** The number of cells of the current month. */
  function CountInMonth(cells: seq<Cell>): nat
  {
    if cells == [] then 0
    else CountInMonth(cells[..|cells| - 1]) + (if cells[|cells| - 1].inCurrentMonth then 1 else 0)
  }

  /** When exactly the positions `lo..hi-1` hold cells of the current month, there
      are `hi - lo` of them. */
  lemma {:induction false} CountOfRun(cells: seq<Cell>, lo: int, hi: int)
    requires 0 <= lo <= hi <= |cells|
    requires forall k :: 0 <= k < |cells| ==> (cells[k].inCurrentMonth <==> lo <= k < hi)
    ensures CountInMonth(cells) == hi - lo
  {
    if cells != [] {
      var front := cells[..|cells| - 1];
      if hi == |cells| && lo < hi {
        CountOfRun(front, lo, hi - 1);
      } else {
        var h := if hi == |cells| then hi - 1 else hi;
        var l := if lo > h then h else lo;
        CountOfRun(front, l, h);
      }
    }
  }

  /** The cells of the current month are exactly the run of positions that starts at
      the weekday of the month's first day and is as long as the month. */
  lemma CurrentMonthRun(year: int, month: int, k: int)
    requires 0 <= k < 42
    ensures CellAt(year, month, k).inCurrentMonth <==>
            GetMonthStartDay(year, month) <= k < GetMonthStartDay(year, month) + GetDaysInMonth(year, month)
  {
  }

  /** The grid holds as many cells of the current month as the month has days. */
  lemma CurrentMonthCount(year: int, month: int)
    ensures CountInMonth(Layout(year, month)) == GetDaysInMonth(year, month)
  {
    var start := GetMonthStartDay(year, month);
    CountOfRun(Layout(year, month), start, start + GetDaysInMonth(year, month));
  }

  /** Day `d` of the month sits at position `startDay + d - 1`: it is labelled with
      its number in decimal (which ParseNatToString reads back as `d`), carries the
      date `new Date(year, month, d)`, which is day `d` of the month in the year
      MakeFullYear reads, and its column is that date's weekday. */
  lemma DayCell(year: int, month: int, d: int)
    requires 0 <= month < 12
    requires 1 <= d <= GetDaysInMonth(year, month)
    ensures var k := GetMonthStartDay(year, month) + d - 1;
            var c := CellAt(year, month, k);
            c.inCurrentMonth && c.labelText == NatToString(d) &&
            c.dateValue == Some(CalendarDate(MakeFullYear(year), month, d)) &&
            GetDay(CalendarDate(MakeFullYear(year), month, d)) == k % 7
  {
    var fy := MakeFullYear(year);
    CarryUnique(fy, month, YearMonth(fy, month));
    NewDateInMonth(year, month, d);
    WeekDayOfDate(CalendarDate(fy, month, d));
  }

  /** The padding cells before and after the month show no label and carry no date. */
  lemma PaddingCell(year: int, month: int, k: int)
    requires 0 <= k < 42
    requires !CellAt(year, month, k).inCurrentMonth
    ensures CellAt(year, month, k).labelText == "" && CellAt(year, month, k).dateValue == None
  {
  }

  /** The leading cells name the last days of the previous month, ending with its
      last day right before the first of the month; the trailing cells count the
      next month's days from 1. */
  lemma PaddingDays(year: int, month: int, k: int)
    requires 0 <= k < 42
    ensures var start := GetMonthStartDay(year, month);
            k < start ==> CellAt(year, month, k).key
                          == PrevKey(month, GetDaysInMonth(year, month - 1) - (start - 1 - k))
    ensures var end := GetMonthStartDay(year, month) + GetDaysInMonth(year, month);
            end <= k ==> CellAt(year, month, k).key == NextKey(month + 1, k - end + 1)
  {
  }

  /** At least five trailing cells follow the month: the grid never runs short. */
  lemma TrailingCells(year: int, month: int)
    ensures GetMonthStartDay(year, month) + GetDaysInMonth(year, month) + 5 <= 42
  {
  }

  /** A string after a common prefix determines the whole. */
  lemma PrefixCancel(p: string, a: string, b: string)
    requires p + a == p + b
    ensures a == b
  {
    assert a == (p + a)[|p|..];
    assert b == (p + b)[|p|..];
  }

  /** Keys of one kind for one month differ when their days differ. */
  lemma SameKindKeys(p: string, d1: int, d2: int)
    requires d1 != d2
    ensures p + IntToString(d1) != p + IntToString(d2)
  {
    if p + IntToString(d1) == p + IntToString(d2) {
      PrefixCancel(p, IntToString(d1), IntToString(d2));
      IntToStringInjective(d1, d2);
    }
  }

  /** Every cell of a grid has its own key. */
  lemma KeysDistinct(year: int, month: int, i: int, j: int)
    requires 0 <= i < j < 42
    ensures CellAt(year, month, i).key != CellAt(year, month, j).key
  {
    var start := GetMonthStartDay(year, month);
    var n := GetDaysInMonth(year, month);
    var a, b := CellAt(year, month, i), CellAt(year, month, j);
    var yearText := IntToString(year);
    IntToStringSign(year);
    if j < start {
      SameKindKeys("prev-" + IntToString(month) + "-", GetDaysInMonth(year, month - 1) - start + i + 1,
                   GetDaysInMonth(year, month - 1) - start + j + 1);
    } else if i >= start + n {
      SameKindKeys("next-" + IntToString(month + 1) + "-", i - start - n + 1, j - start - n + 1);
    } else if start <= i && j < start + n {
      SameKindKeys(yearText + "-" + IntToString(month) + "-", i - start + 1, j - start + 1);
    } else {
      assert a.key[0] != b.key[0];
    }
  }
}
