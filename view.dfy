/** The state behind the calendar component and the handlers that change it: month
    navigation, choosing a day, typing an event title, and adding an event after the
    short delay the component waits before it stores the event. */
module CalendarView {
  import opened Text
  import opened Gregorian
  import opened CalendarGrid

  /** An event id: the day's key and the clock reading taken when the event is stored. */
  datatype EventId = EventId(key: CalendarDate, stamp: int)

  /** A stored event. */
  datatype EventRecord = EventRecord(id: EventId, title: string)

  /** The events of each day, in the order they were added. */
  type EventStore = map<CalendarDate, seq<EventRecord>>

  /** An event submission waiting for its delay to run out: the day it goes to and
      the title as typed. */
  datatype PendingAdd = PendingAdd(key: CalendarDate, title: string)

  /** The events of one day; a day nobody has added to has none. */
  function EventsOn(events: EventStore, key: CalendarDate): (r: seq<EventRecord>)
    ensures key !in events ==> r == []
  {
    if key in events then events[key] else []
  }

  /** The store after `record` is appended to the list of day `key`, a fresh copy of
      the old list with the record pushed at its end. */
  function WithEvent(events: EventStore, key: CalendarDate, record: EventRecord): (r: EventStore)
    ensures r.Keys == events.Keys + {key}
    ensures |EventsOn(r, key)| == |EventsOn(events, key)| + 1
    ensures EventsOn(r, key)[..|EventsOn(events, key)|] == EventsOn(events, key)
    ensures EventsOn(r, key)[|EventsOn(events, key)|] == record
    ensures forall k :: k != key ==> EventsOn(r, k) == EventsOn(events, k)
  {
    var nextEvents := EventsOn(events, key) + [record];
    assert nextEvents[..|EventsOn(events, key)|] == EventsOn(events, key);
    events[key := nextEvents]
  }

  /** What every stored list satisfies: it is not empty, each record is filed under
      its own day, and each title is trimmed and not blank. */
  ghost predicate StoreInvariant(events: EventStore)
  {
    forall k :: k in events ==> DayListOk(k, events[k])
  }

  /** One day's list as the store keeps it. */
  ghost predicate DayListOk(key: CalendarDate, list: seq<EventRecord>)
  {
    list != [] &&
    forall i :: 0 <= i < |list| ==> list[i].id.key == key && list[i].title != [] && IsTrimmed(list[i].title)
  }

  /** A record filed under its day, with a trimmed non-blank title, may end a day's list. */
  lemma AppendKeepsDayList(key: CalendarDate, before: seq<EventRecord>, record: EventRecord)
    requires before == [] || DayListOk(key, before)
    requires record.id.key == key && record.title != [] && IsTrimmed(record.title)
    ensures DayListOk(key, before + [record])
  {
    var list := before + [record];
    forall i | 0 <= i < |list|
      ensures list[i].id.key == key && list[i].title != [] && IsTrimmed(list[i].title)
    {
      if i < |before| {
        assert list[i] == before[i];
      }
    }
  }

  /** Appending a record whose title is the trimmed form of a non-blank title keeps
      the store invariant. */
  lemma WithEventKeepsInvariant(events: EventStore, key: CalendarDate, stamp: int, title: string)
    requires StoreInvariant(events)
    requires Trim(title) != []
    ensures StoreInvariant(WithEvent(events, key, EventRecord(EventId(key, stamp), Trim(title))))
  {
    var record := EventRecord(EventId(key, stamp), Trim(title));
    AppendKeepsDayList(key, EventsOn(events, key), record);
    var r := WithEvent(events, key, record);
    forall k | k in r
      ensures DayListOk(k, r[k])
    {
      if k != key {
        assert r[k] == EventsOn(events, k);
      }
    }
  }

  /** The guard of `handleAddEvent`: a title that is not blank once trimmed, a chosen
      day, and no submission already waiting. */
  predicate CanSubmit(title: string, selected: Option<CalendarDate>, isSubmitting: bool): (ok: bool)
    ensures ok ==> selected.Some? && !isSubmitting
  {
    Trim(title) != [] && selected.Some? && !isSubmitting
  }

  /** A submission is refused exactly when the title is all whitespace, no day is
      chosen, or a submission is waiting. */
  lemma CanSubmitMeaning(title: string, selected: Option<CalendarDate>, isSubmitting: bool)
    ensures !CanSubmit(title, selected, isSubmitting) <==>
            AllWhitespace(title) || selected.None? || isSubmitting
  {
    TrimEmptyIffBlank(title);
  }

  /** `Math.min`. */
  function Min(a: int, b: int): (m: int)
    ensures m <= a && m <= b && (m == a || m == b)
  {
    if a <= b then a else b
  }

  /** The day chosen after the view moved to the month of `next`: the same day of
      the month when the new month has it, its last day otherwise, and its first day
      when nothing was chosen. */
  function SelectionAfterNavigate(selected: Option<CalendarDate>, next: CalendarDate): (r: CalendarDate)
    ensures r.Valid()
  {
    if selected.None? then NewDate(next.year, next.month, 1)
    else NewDate(next.year, next.month, Min(selected.value.day, GetDaysInMonth(next.year, next.month)))
  }

  /** After navigating, the chosen day lies in the new month as `new Date` reads its
      year (1900 + year for a year in 0..99), on the old day of the month cut down to
      the month's length, or on the 1st when none was chosen. */
  lemma SelectionInTargetMonth(selected: Option<CalendarDate>, next: CalendarDate)
    requires next.Valid()
    requires selected.Some? ==> selected.value.Valid()
    ensures var r := SelectionAfterNavigate(selected, next);
            r.year == MakeFullYear(next.year) && r.month == next.month
    ensures selected.None? ==> SelectionAfterNavigate(selected, next).day == 1
    ensures selected.Some? ==> SelectionAfterNavigate(selected, next).day
                               == Min(selected.value.day, GetDaysInMonth(next.year, next.month))
  {
    var fy := MakeFullYear(next.year);
    CarryUnique(fy, next.month, YearMonth(fy, next.month));
    var day := if selected.None? then 1 else Min(selected.value.day, GetDaysInMonth(next.year, next.month));
    NewDateInMonth(next.year, next.month, day);
  }

  /** The chosen day of the month survives navigation whenever the new month is long
      enough for it. */
  lemma SelectionKeepsDay(selected: CalendarDate, next: CalendarDate)
    requires next.Valid() && selected.Valid()
    requires selected.day <= GetDaysInMonth(next.year, next.month)
    ensures SelectionAfterNavigate(Some(selected), next)
            == CalendarDate(MakeFullYear(next.year), next.month, selected.day)
  {
    SelectionInTargetMonth(Some(selected), next);
  }

  /** The 31st of March, moved to April, becomes the 30th of April. */
  lemma SelectionClampExample(y: int)
    ensures SelectionAfterNavigate(Some(CalendarDate(y, 2, 31)), CalendarDate(y, 3, 1))
            == CalendarDate(MakeFullYear(y), 3, 30)
  {
    MonthLengths(y, 3);
    SelectionInTargetMonth(Some(CalendarDate(y, 2, 31)), CalendarDate(y, 3, 1));
  }

  /** When the view reaches a year in 0..99 (`setMonth` keeps such years), the chosen
      day is built in 1900 + year: for January of year 50 it lands in 1950, outside
      the month shown. */
  lemma SelectionLeavesMonth(selected: Option<CalendarDate>)
    requires selected.Some? ==> selected.value.Valid()
    ensures SelectionAfterNavigate(selected, CalendarDate(50, 0, 1)).year == 1950
  {
    SelectionInTargetMonth(selected, CalendarDate(50, 0, 1));
  }

  /** The choice after navigating with the year taken as it is (as `setFullYear`
      would build it) rather than read by MakeFullYear. */
  function IntendedSelection(selected: Option<CalendarDate>, next: CalendarDate): (r: CalendarDate)
    ensures r.Valid()
  {
    if selected.None? then CivilDate(next.year, next.month, 1)
    else CivilDate(next.year, next.month, Min(selected.value.day, DaysInMonth(next.year, next.month)))
  }

  /** The intended choice lies in the month shown for every year, on the old day of
      the month cut down to the month's length, or on the 1st; outside the years
      0..99 it is the choice the component makes. */
  lemma IntendedSelectionInTargetMonth(selected: Option<CalendarDate>, next: CalendarDate)
    requires next.Valid()
    requires selected.Some? ==> selected.value.Valid()
    ensures var r := IntendedSelection(selected, next);
            r.year == next.year && r.month == next.month &&
            r.day == (if selected.None? then 1 else Min(selected.value.day, DaysInMonth(next.year, next.month)))
    ensures !(0 <= next.year <= 99) ==> IntendedSelection(selected, next) == SelectionAfterNavigate(selected, next)
  {
    CarryUnique(next.year, next.month, YearMonth(next.year, next.month));
    var day := if selected.None? then 1 else Min(selected.value.day, DaysInMonth(next.year, next.month));
    CivilDateIs(next.year, next.month, day, CalendarDate(next.year, next.month, day));
  }

  /** The event-count badge of a cell: nothing for no events, the count up to nine,
      and "9+" beyond. */
  function IndicatorLabel(count: nat): (badge: string)
    ensures |badge| <= 2 && (badge == "" <==> count == 0)
  {
    if count > 9 then "9+" else if count == 0 then "" else NatToString(count)
  }

  /** The badge is empty exactly for no events, is the single digit of a count from 1
      to 9, which reads back as the count, and is "9+" for every larger count. */
  lemma IndicatorLabelCases(count: nat)
    ensures IndicatorLabel(count) == "" <==> count == 0
    ensures 1 <= count <= 9 ==> |IndicatorLabel(count)| == 1 && IndicatorLabel(count)[0] == DigitChar(count)
    ensures 1 <= count <= 9 ==> AllDigits(IndicatorLabel(count)) && ParseNat(IndicatorLabel(count)) == count
    ensures count > 9 ==> IndicatorLabel(count) == "9+"
  {
    if 1 <= count <= 9 {
      ParseNatToString(count);
    }
  }

  /** The events shown beside the grid: those of the chosen day, or none. */
  function SelectedEvents(events: EventStore, selected: Option<CalendarDate>): (r: seq<EventRecord>)
    ensures selected.None? ==> r == []
  {
    if selected.Some? then EventsOn(events, selected.value) else []
  }

  /** The events counted on a cell: only a cell of the current month with a date has any. */
  function CellEvents(events: EventStore, cell: Cell): (r: seq<EventRecord>)
    ensures !cell.inCurrentMonth || cell.dateValue.None? ==> r == []
  {
    if cell.inCurrentMonth && cell.dateValue.Some? then EventsOn(events, cell.dateValue.value) else []
  }

  /** Whether a cell is drawn as the chosen day (or, given today's date, as today). */
  function CellIsMarked(cell: Cell, date: Option<CalendarDate>): (marked: bool)
    ensures marked <==> cell.inCurrentMonth && date.Some? && cell.dateValue == date
  {
    if cell.inCurrentMonth then IsSameDate(cell.dateValue, date) else false
  }

  /** In the grid of a month, the cell marked for a date is the one at the date's day,
      and only when the date lies in that month: at most one cell is marked. */
  lemma MarkedCellIsTheDay(year: int, month: int, date: CalendarDate, k: int)
    requires 0 <= month < 12 && date.Valid() && 0 <= k < 42
    ensures CellIsMarked(CellAt(year, month, k), Some(date)) <==>
            date.year == MakeFullYear(year) && date.month == month && k == GetMonthStartDay(year, month) + date.day - 1
  {
    var start := GetMonthStartDay(year, month);
    var n := GetDaysInMonth(year, month);
    if start <= k < start + n {
      DayCell(year, month, k - start + 1);
    } else {
      CurrentMonthRun(year, month, k);
    }
  }

  /** A marked cell counts the events that are listed for the chosen day. */
  lemma MarkedCellShowsSelectedEvents(events: EventStore, cell: Cell, selected: Option<CalendarDate>)
    requires CellIsMarked(cell, selected)
    ensures CellEvents(events, cell) == SelectedEvents(events, selected)
  {
    assert cell.dateValue.value == selected.value;
  }

  /** The component's state: the month shown (as its first day), the chosen day, the
      stored events, the title being typed, whether a submission is waiting, and the
      callback the waiting submission will run (`submitTimeoutRef`). */
  class Calendar {
    var activeDate: CalendarDate
    var selectedDate: Option<CalendarDate>
    var events: EventStore
    var eventTitle: string
    var isSubmitting: bool
    var pending: Option<PendingAdd>

    /** The shown month is given by its first day, the chosen day is a real date, the
        store keeps its invariant, and a submission waits exactly while the flag is set. */
    ghost predicate Valid()
      reads this
    {
      activeDate.Valid() && activeDate.day == 1 &&
      (selectedDate.Some? ==> selectedDate.value.Valid()) &&
      StoreInvariant(events) &&
      (isSubmitting <==> pending.Some?) &&
      (pending.Some? ==> Trim(pending.value.title) != [])
    }

    /** The initial state, given today's date: today's month shown, today chosen, no
        events, an empty title and nothing waiting. */
    constructor(today: CalendarDate)
      requires today.Valid()
      ensures Valid()
      ensures activeDate == NewDate(today.year, today.month, 1)
      ensures activeDate == CalendarDate(MakeFullYear(today.year), today.month, 1)
      ensures selectedDate == Some(today)
      ensures events == map[] && eventTitle == "" && !isSubmitting && pending.None?
    {
      NewDateInMonth(today.year, today.month, 1);
      activeDate := NewDate(today.year, today.month, 1);
      selectedDate := Some(today);
      events := map[];
      eventTitle := "";
      isSubmitting := false;
      pending := None;
    }

    /** `handleMonthNavigate(offset)`: show the month `offset` months away and move the
        chosen day into it. */
    method NavigateMonth(offset: int)
      requires Valid()
      modifies this
      ensures Valid()
      ensures activeDate == AddMonths(old(activeDate), offset)
      ensures MonthsFromEpoch(activeDate.year, activeDate.month)
              == MonthsFromEpoch(old(activeDate).year, old(activeDate).month) + offset
      ensures selectedDate == Some(SelectionAfterNavigate(old(selectedDate), activeDate))
      ensures events == old(events) && eventTitle == old(eventTitle)
      ensures isSubmitting == old(isSubmitting) && pending == old(pending)
    {
      var next := AddMonths(activeDate, offset);
      AddMonthsFromFirst(activeDate, offset);
      selectedDate := Some(SelectionAfterNavigate(selectedDate, next));
      activeDate := next;
    }

    /** Clicking a cell: only a cell of the current month with a date can be chosen. */
    method SelectCell(cell: Cell)
      requires Valid()
      requires cell.dateValue.Some? ==> cell.dateValue.value.Valid()
      modifies this
      ensures Valid()
      ensures selectedDate == if cell.inCurrentMonth && cell.dateValue.Some? then cell.dateValue
                              else old(selectedDate)
      ensures activeDate == old(activeDate) && events == old(events) && eventTitle == old(eventTitle)
      ensures isSubmitting == old(isSubmitting) && pending == old(pending)
    {
      if !cell.inCurrentMonth || cell.dateValue.None? {
        return;
      }
      selectedDate := cell.dateValue;
    }

    /** Typing in the title field; the field is disabled while a submission waits. */
    method EditTitle(text: string)
      requires Valid()
      modifies this
      ensures Valid()
      ensures eventTitle == if old(isSubmitting) then old(eventTitle) else text
      ensures activeDate == old(activeDate) && selectedDate == old(selectedDate) && events == old(events)
      ensures isSubmitting == old(isSubmitting) && pending == old(pending)
    {
      if !isSubmitting {
        eventTitle := text;
      }
    }

    /** `handleAddEvent`: refused unless CanSubmit holds; otherwise the submission is
        flagged and its callback scheduled for the chosen day and the typed title. */
    method SubmitEvent()
      requires Valid()
      modifies this
      ensures Valid()
      ensures !CanSubmit(old(eventTitle), old(selectedDate), old(isSubmitting)) ==>
                isSubmitting == old(isSubmitting) && pending == old(pending)
      ensures CanSubmit(old(eventTitle), old(selectedDate), old(isSubmitting)) ==>
                isSubmitting && pending == Some(PendingAdd(old(selectedDate).value, old(eventTitle)))
      ensures activeDate == old(activeDate) && selectedDate == old(selectedDate)
      ensures events == old(events) && eventTitle == old(eventTitle)
    {
      if !CanSubmit(eventTitle, selectedDate, isSubmitting) {
        return;
      }
      var key := selectedDate.value;
      // The source cancels an earlier callback here; none exists while the flag is clear.
      isSubmitting := true;
      pending := Some(PendingAdd(key, eventTitle));
    }

    /** The delayed callback of `handleAddEvent`, run as one step: the trimmed title is
        appended to the day's list, the title field is cleared and the flag is reset.
        `stamp` is the clock reading used in the new event's id. */
    method FireSubmitTimeout(stamp: int)
      requires Valid() && pending.Some?
      modifies this
      ensures Valid()
      ensures var p := old(pending).value;
              events == WithEvent(old(events), p.key, EventRecord(EventId(p.key, stamp), Trim(p.title)))
      ensures eventTitle == "" && !isSubmitting && pending.None?
      ensures activeDate == old(activeDate) && selectedDate == old(selectedDate)
    {
      var p := pending.value;
      var record := EventRecord(EventId(p.key, stamp), Trim(p.title));
      var next := WithEvent(events, p.key, record);
      assert StoreInvariant(next) by {
        WithEventKeepsInvariant(events, p.key, stamp, p.title);
      }
      events := next;
      eventTitle := "";
      isSubmitting := false;
      pending := None;
    }

    /** The events listed beside the grid. */
    function ShownEvents(): (r: seq<EventRecord>)
      reads this
      ensures selectedDate.None? ==> r == []
    {
      SelectedEvents(events, selectedDate)
    }
  }
}
