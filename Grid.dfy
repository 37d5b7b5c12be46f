/**
  The month grid of `renderCalendar`: 42 cells made of the tail of the previous
  month, every day of the shown month, and the head of the next month, each
  carrying the `other-month` and `today` flags and the events of its date.

  The leading cells are reproduced as the code computes them: they count back
  from the day count of the month two before the shown one, placed in the month
  before it, so they can leave a gap before the 1st or repeat its first days.
*/
module Grid {
  import opened CivilDate
  import opened DateFormat
  import opened Events

  /** One day element: its date (a day number), the two CSS flags, and its events. */
  datatype Cell = Cell(date: int, otherMonth: bool, isToday: bool, events: seq<Event>)

  /** `getEventsForDate(date)`: the events whose date string is `formatDate(date)`, in collection order. */
  function EventsForDate(events: seq<Event>, t: int): (r: seq<Event>)
    ensures forall e :: e in r <==> e in events && e.date == FormatDate(t)
  {
    var dateString := FormatDate(t);
    Filter(events, (e: Event) => e.date == dateString)
  }

  /** `getEventsForDate` over a fixed collection, as a lookup from day to events. */
  function EventLookup(events: seq<Event>): int -> seq<Event> {
    t => EventsForDate(events, t)
  }

  /** What `createDayElement(date, isOtherMonth)` records about a day, with `today` the current day. */
  function DayCell(t: int, isOtherMonth: bool, lookup: int -> seq<Event>, today: int): Cell {
    Cell(t, isOtherMonth, t == today, lookup(t))
  }

  /** `startDay`: the weekday of the 1st of the month. */
  function StartDay(year: int, month: int): int {
    WeekDay(NewDate(year, month, 1))
  }

  /** `lastDay.getDate()`: the day of `new Date(year, month + 1, 0)`. */
  function LastDate(year: int, month: int): int {
    Civil(NewDate(year, month + 1, 0)).day
  }

  /** `prevMonth.getDate()` as written: the day of `new Date(year, month - 1, 0)`. */
  function PrevMonthDate(year: int, month: int): int {
    Civil(NewDate(year, month - 1, 0)).day
  }

  /** The date of cell `k` when the leading cells count back from day `anchor` of month `month - 1`. */
  function CellDate(year: int, month: int, anchor: int, k: int): int {
    var lead := StartDay(year, month);
    var n := LastDate(year, month);
    if k < lead then NewDate(year, month - 1, anchor - (lead - 1 - k))
    else if k < lead + n then NewDate(year, month, k - lead + 1)
    else NewDate(year, month + 1, k - lead - n + 1)
  }

  /** The 42 cells for a given leading anchor; only the cells of the shown month are not other-month. */
  function GridWith(year: int, month: int, anchor: int, lookup: int -> seq<Event>, today: int): (g: seq<Cell>)
    ensures |g| == 42
  {
    var lead := StartDay(year, month);
    var n := LastDate(year, month);
    seq(42, k => DayCell(CellDate(year, month, anchor, k), k < lead || lead + n <= k, lookup, today))
  }

  /** The grid `renderCalendar` draws for `year` and 0-based `month`. */
  function MonthGrid(year: int, month: int, lookup: int -> seq<Event>, today: int): (g: seq<Cell>)
    ensures |g| == 42
  {
    GridWith(year, month, PrevMonthDate(year, month), lookup, today)
  }

  /** `renderCalendar`: three counting loops append the leading, current and trailing cells. */
  method RenderMonth(year: int, month: int, lookup: int -> seq<Event>, today: int) returns (grid: seq<Cell>)
    ensures grid == MonthGrid(year, month, lookup, today)
  {
    var firstDay := NewDate(year, month, 1);
    var lastDay := NewDate(year, month + 1, 0);
    var startDay := WeekDay(firstDay);
    var prevMonth := NewDate(year, month - 1, 0);
    grid := AppendLeading(year, month, lookup, today, startDay, Civil(prevMonth).day);
    grid := AppendCurrent(year, month, lookup, today, grid, Civil(lastDay).day);
    grid := AppendTrailing(year, month, lookup, today, grid);
  }

  /** The first loop: `startDay` cells of the month before, for `i` from `startDay - 1` down to 0. */
  method AppendLeading(year: int, month: int, lookup: int -> seq<Event>, today: int, startDay: int, prevMonthDay: int)
    returns (grid: seq<Cell>)
    requires startDay == StartDay(year, month) && prevMonthDay == PrevMonthDate(year, month)
    ensures |grid| == startDay
    ensures forall k :: 0 <= k < |grid| ==> grid[k] == MonthGrid(year, month, lookup, today)[k]
  {
    ghost var g := MonthGrid(year, month, lookup, today);
    grid := [];
    var i := startDay - 1;
    while i >= 0
      invariant -1 <= i < startDay
      invariant |grid| == startDay - 1 - i
      invariant forall k :: 0 <= k < |grid| ==> grid[k] == g[k]
    {
      var cell := DayCell(NewDate(year, month - 1, prevMonthDay - i), true, lookup, today);
      LeadingCell(year, month, lookup, today, i);
      grid := grid + [cell];
      i := i - 1;
    }
  }

  /** The second loop: one cell for each day of the shown month. */
  method AppendCurrent(year: int, month: int, lookup: int -> seq<Event>, today: int, grid0: seq<Cell>, lastDay: int)
    returns (grid: seq<Cell>)
    requires lastDay == LastDate(year, month) && |grid0| == StartDay(year, month)
    requires forall k :: 0 <= k < |grid0| ==> grid0[k] == MonthGrid(year, month, lookup, today)[k]
    ensures |grid| == |grid0| + lastDay
    ensures forall k :: 0 <= k < |grid| ==> grid[k] == MonthGrid(year, month, lookup, today)[k]
  {
    ghost var g := MonthGrid(year, month, lookup, today);
    grid := grid0;
    var day := 1;
    while day <= lastDay
      invariant 1 <= day <= lastDay + 1
      invariant |grid| == |grid0| + day - 1
      invariant forall k :: 0 <= k < |grid| ==> grid[k] == g[k]
    {
      var cell := DayCell(NewDate(year, month, day), false, lookup, today);
      CurrentCell(year, month, lookup, today, day);
      grid := grid + [cell];
      day := day + 1;
    }
  }

  /** The third loop: days of the next month until the grid holds 42 cells. */
  method AppendTrailing(year: int, month: int, lookup: int -> seq<Event>, today: int, grid0: seq<Cell>)
    returns (grid: seq<Cell>)
    requires |grid0| == StartDay(year, month) + LastDate(year, month)
    requires forall k :: 0 <= k < |grid0| ==> grid0[k] == MonthGrid(year, month, lookup, today)[k]
    ensures grid == MonthGrid(year, month, lookup, today)
  {
    ghost var g := MonthGrid(year, month, lookup, today);
    var totalCells := |grid0|;
    var remainingCells := 42 - totalCells;
    LastDateAny(year, month);
    grid := grid0;
    var day := 1;
    while day <= remainingCells
      invariant 1 <= day <= remainingCells + 1
      invariant |grid| == totalCells + day - 1
      invariant forall k :: 0 <= k < |grid| ==> grid[k] == g[k]
    {
      var cell := DayCell(NewDate(year, month + 1, day), true, lookup, today);
      TrailingCell(year, month, lookup, today, day);
      grid := grid + [cell];
      day := day + 1;
    }
    assert |grid| == |g|;
  }

  /** Cell `k` of a grid: the day it shows and whether it lies outside the shown month. */
  lemma CellOfGrid(year: int, month: int, anchor: int, lookup: int -> seq<Event>, today: int, k: int)
    requires 0 <= k < 42
    ensures GridWith(year, month, anchor, lookup, today)[k]
      == DayCell(CellDate(year, month, anchor, k), k < StartDay(year, month) || StartDay(year, month) + LastDate(year, month) <= k, lookup, today)
  {
  }

  /** The `i`-th step of the first loop (counting `i` down) fills cell `startDay - 1 - i`. */
  lemma LeadingCell(year: int, month: int, lookup: int -> seq<Event>, today: int, i: int)
    requires 0 <= i < StartDay(year, month)
    ensures MonthGrid(year, month, lookup, today)[StartDay(year, month) - 1 - i]
      == DayCell(NewDate(year, month - 1, PrevMonthDate(year, month) - i), true, lookup, today)
  {
    var p, k := PrevMonthDate(year, month), StartDay(year, month) - 1 - i;
    CellOfGrid(year, month, p, lookup, today, k);
    assert CellDate(year, month, p, k) == NewDate(year, month - 1, p - i);
  }

  /** Day `day` of the shown month fills cell `startDay + day - 1`. */
  lemma CurrentCell(year: int, month: int, lookup: int -> seq<Event>, today: int, day: int)
    requires 1 <= day <= LastDate(year, month)
    ensures MonthGrid(year, month, lookup, today)[StartDay(year, month) + day - 1]
      == DayCell(NewDate(year, month, day), false, lookup, today)
  {
    var p, k := PrevMonthDate(year, month), StartDay(year, month) + day - 1;
    CellOfGrid(year, month, p, lookup, today, k);
    assert CellDate(year, month, p, k) == NewDate(year, month, day);
  }

  /** Day `day` of the next month fills cell `startDay + lastDay - 1 + day`, up to cell 41. */
  lemma TrailingCell(year: int, month: int, lookup: int -> seq<Event>, today: int, day: int)
    requires 1 <= day <= 42 - StartDay(year, month) - LastDate(year, month)
    ensures MonthGrid(year, month, lookup, today)[StartDay(year, month) + LastDate(year, month) + day - 1]
      == DayCell(NewDate(year, month + 1, day), true, lookup, today)
  {
    var p, k := PrevMonthDate(year, month), StartDay(year, month) + LastDate(year, month) + day - 1;
    CellOfGrid(year, month, p, lookup, today, k);
    assert CellDate(year, month, p, k) == NewDate(year, month + 1, day);
  }

  /** `new Date(year, m + 1, 0).getDate()` is the length of month `m`, for any month number. */
  lemma LastDateAny(year: int, m: int)
    ensures LastDate(year, m) == MonthDays(FullYear(year), m)
  {
    var y := FullYear(year);
    var t := MakeDay(y, m + 1, 0);
    assert NewDate(year, m + 1, 0) == t;
    LastDayOfMonth(y, m);
    assert Civil(t) == Date(y + m / 12, m % 12, MonthDays(y, m));
  }

  /** The 1st of the shown month, as `new Date(year, month, 1)` computes it, and its weekday. */
  lemma FirstOfMonth(year: int, month: int)
    requires 0 <= month < 12
    ensures NewDate(year, month, 1) == DayNumber(Date(FullYear(year), month, 1))
    ensures StartDay(year, month) == WeekDay(DayNumber(Date(FullYear(year), month, 1)))
  {
    MakeDayInYear(FullYear(year), month, 1);
  }

  /** `lastDay.getDate()` is the length of the shown month. */
  lemma MonthLength(year: int, month: int)
    requires 0 <= month < 12
    ensures LastDate(year, month) == DaysInMonth(FullYear(year), month)
  {
    var y := FullYear(year);
    var t := MakeDay(y, month + 1, 0);
    assert NewDate(year, month + 1, 0) == t;
    LastDayOfMonth(y, month);
    assert month / 12 == 0 && month % 12 == month;
    assert Civil(t) == Date(y, month, DaysInMonth(y, month));
  }

  /** As written, `prevMonth.getDate()` is the day count of the month two before the shown one. */
  lemma PrevMonthLength(year: int, month: int)
    requires 0 <= month < 12
    ensures PrevMonthDate(year, month) == LastDate(year, month - 2)
    ensures PrevMonthDate(year, month) == MonthDays(FullYear(year), month - 2)
  {
    assert NewDate(year, month - 1, 0) == NewDate(year, (month - 2) + 1, 0);
    LastDateAny(year, month - 2);
  }

  /** February has 29 day cells in a leap year and 28 otherwise. */
  lemma FebruaryLength(year: int)
    ensures LastDate(year, 1) == if IsLeapYear(FullYear(year)) then 29 else 28
  {
    MonthLength(year, 1);
  }

  /** February 2024 has 29 day cells. */
  lemma February2024(year: int)
    requires year == 2024
    ensures LastDate(year, 1) == 29
  {
    assert FullYear(year) == year && IsLeapYear(year);
    FebruaryLength(year);
  }

  /** February 2023 has 28 day cells. */
  lemma February2023(year: int)
    requires year == 2023
    ensures LastDate(year, 1) == 28
  {
    assert FullYear(year) == year && !IsLeapYear(year);
    FebruaryLength(year);
  }

  /** A leading cell counts back from day `anchor` of the month before. */
  lemma LeadingDate(year: int, month: int, anchor: int, k: int)
    requires 0 <= k < StartDay(year, month)
    ensures CellDate(year, month, anchor, k) == MakeDay(FullYear(year), month - 1, 1) + anchor - StartDay(year, month) + k
  {
    var y, lead := FullYear(year), StartDay(year, month);
    var d := anchor - (lead - 1 - k);
    assert CellDate(year, month, anchor, k) == MakeDay(y, month - 1, d);
    MakeDayOffset(y, month - 1, d);
  }

  /** From the 1st on, cell `k` shows the day `k - lead` days after the 1st. */
  lemma RunDate(year: int, month: int, anchor: int, k: int)
    requires 0 <= month < 12 && StartDay(year, month) <= k
    ensures CellDate(year, month, anchor, k) == DayNumber(Date(FullYear(year), month, 1)) + k - StartDay(year, month)
  {
    var y, lead, n := FullYear(year), StartDay(year, month), LastDate(year, month);
    var first := DayNumber(Date(y, month, 1));
    FirstOfMonth(year, month);
    assert MakeDay(y, month, 1) == first;
    if k < lead + n {
      var d := k - lead + 1;
      assert CellDate(year, month, anchor, k) == MakeDay(y, month, d);
      MakeDayOffset(y, month, d);
    } else {
      var d := k - lead - n + 1;
      assert CellDate(year, month, anchor, k) == MakeDay(y, month + 1, d);
      MakeDayOffset(y, month + 1, d);
      MonthLength(year, month);
      MakeDayNextMonth(y, month);
      assert month / 12 == 0 && month % 12 == month;
      assert MakeDay(y, month + 1, 1) == first + n;
    }
  }

  /** Counting on from a day in column `lead`, the `k - lead`-th day after it is in column `k mod 7`. */
  lemma Column(first: int, lead: int, k: int)
    requires lead == WeekDay(first)
    ensures WeekDay(first + k - lead) == k % 7
  {
    var q := (first + 4) / 7;
    assert first + 4 == 7 * q + lead;
    assert first + k - lead + 4 == 7 * q + k;
  }

  /** A cell of the shown month shows that day of the month. */
  lemma CurrentDate(year: int, month: int, anchor: int, k: int)
    requires 0 <= month < 12
    requires StartDay(year, month) <= k < StartDay(year, month) + LastDate(year, month)
    ensures Civil(CellDate(year, month, anchor, k)) == Date(FullYear(year), month, k - StartDay(year, month) + 1)
  {
    var y, lead := FullYear(year), StartDay(year, month);
    var d := k - lead + 1;
    MonthLength(year, month);
    MakeDayValidInYear(y, month, d);
    var t := CellDate(year, month, anchor, k);
    assert t == MakeDay(y, month, d);
    assert Civil(MakeDay(y, month, d)) == Date(y, month, d);
  }

  /** A trailing cell shows a day at the start of the month after. */
  lemma TrailingDate(year: int, month: int, anchor: int, k: int)
    requires 0 <= month < 12
    requires StartDay(year, month) + LastDate(year, month) <= k < 42
    ensures Civil(CellDate(year, month, anchor, k))
      == Date(if month == 11 then FullYear(year) + 1 else FullYear(year), (month + 1) % 12, k - StartDay(year, month) - LastDate(year, month) + 1)
  {
    var y, lead, n := FullYear(year), StartDay(year, month), LastDate(year, month);
    var d := k - lead - n + 1;
    MonthLength(year, month);
    assert 1 <= d <= 14;
    assert CellDate(year, month, anchor, k) == MakeDay(y, month + 1, d);
    MakeDayValidNextMonth(y, month, d);
  }

  /** The shape of the grid: how many cells lead, how many follow, and what each cell records. */
  lemma GridLayout(year: int, month: int, lookup: int -> seq<Event>, today: int)
    requires 0 <= month < 12
    ensures StartDay(year, month) == WeekDay(DayNumber(Date(FullYear(year), month, 1)))
    ensures LastDate(year, month) == DaysInMonth(FullYear(year), month)
    ensures 5 <= 42 - StartDay(year, month) - LastDate(year, month) <= 14
    ensures forall k :: 0 <= k < 42 ==>
      var c := MonthGrid(year, month, lookup, today)[k];
      && c.otherMonth == (k < StartDay(year, month) || StartDay(year, month) + LastDate(year, month) <= k)
      && c.isToday == (c.date == today)
      && c.events == lookup(c.date)
  {
    FirstOfMonth(year, month);
    MonthLength(year, month);
    forall k | 0 <= k < 42
      ensures var c := MonthGrid(year, month, lookup, today)[k];
        && c.otherMonth == (k < StartDay(year, month) || StartDay(year, month) + LastDate(year, month) <= k)
        && c.isToday == (c.date == today)
        && c.events == lookup(c.date)
    {
      CellOfGrid(year, month, PrevMonthDate(year, month), lookup, today, k);
    }
  }

  /** The cells between the leading and trailing ones show every day of the shown month, in order. */
  lemma CurrentMonthCells(year: int, month: int, lookup: int -> seq<Event>, today: int)
    requires 0 <= month < 12
    ensures forall k :: StartDay(year, month) <= k < StartDay(year, month) + LastDate(year, month) ==>
      Civil(MonthGrid(year, month, lookup, today)[k].date) == Date(FullYear(year), month, k - StartDay(year, month) + 1)
    ensures forall d :: 1 <= d <= DaysInMonth(FullYear(year), month) ==>
      Civil(MonthGrid(year, month, lookup, today)[StartDay(year, month) + d - 1].date) == Date(FullYear(year), month, d)
  {
    var g, p, lead := MonthGrid(year, month, lookup, today), PrevMonthDate(year, month), StartDay(year, month);
    MonthLength(year, month);
    forall k | lead <= k < lead + LastDate(year, month)
      ensures Civil(g[k].date) == Date(FullYear(year), month, k - lead + 1)
    {
      CellOfGrid(year, month, p, lookup, today, k);
      CurrentDate(year, month, p, k);
    }
    forall d | 1 <= d <= DaysInMonth(FullYear(year), month)
      ensures Civil(g[lead + d - 1].date) == Date(FullYear(year), month, d)
    {
      var k := lead + d - 1;
      assert Civil(g[k].date) == Date(FullYear(year), month, k - lead + 1);
    }
  }

  /** The trailing cells show the first days of the month after, from its 1st. */
  lemma TrailingCells(year: int, month: int, lookup: int -> seq<Event>, today: int)
    requires 0 <= month < 12
    ensures forall k :: StartDay(year, month) + LastDate(year, month) <= k < 42 ==>
      Civil(MonthGrid(year, month, lookup, today)[k].date)
        == Date(if month == 11 then FullYear(year) + 1 else FullYear(year), (month + 1) % 12, k - StartDay(year, month) - LastDate(year, month) + 1)
  {
    var g, p := MonthGrid(year, month, lookup, today), PrevMonthDate(year, month);
    forall k | StartDay(year, month) + LastDate(year, month) <= k < 42
      ensures Civil(g[k].date)
        == Date(if month == 11 then FullYear(year) + 1 else FullYear(year), (month + 1) % 12, k - StartDay(year, month) - LastDate(year, month) + 1)
    {
      CellOfGrid(year, month, p, lookup, today, k);
      TrailingDate(year, month, p, k);
    }
  }

  /** From the 1st on, the cells are consecutive days, and each sits in the column of its weekday. */
  lemma DaysRunOn(year: int, month: int, lookup: int -> seq<Event>, today: int)
    requires 0 <= month < 12
    ensures forall k :: StartDay(year, month) <= k < 42 ==>
      MonthGrid(year, month, lookup, today)[k].date == DayNumber(Date(FullYear(year), month, 1)) + k - StartDay(year, month)
    ensures forall k :: StartDay(year, month) <= k < 42 ==> WeekDay(MonthGrid(year, month, lookup, today)[k].date) == k % 7
  {
    forall k | StartDay(year, month) <= k < 42
      ensures MonthGrid(year, month, lookup, today)[k].date
        == DayNumber(Date(FullYear(year), month, 1)) + k - StartDay(year, month)
      ensures WeekDay(MonthGrid(year, month, lookup, today)[k].date) == k % 7
    {
      RunCell(year, month, lookup, today, k);
    }
  }

  /** From the 1st on, cell k lies `k - startDay` days after the 1st, in column `k % 7`. */
  lemma RunCell(year: int, month: int, lookup: int -> seq<Event>, today: int, k: int)
    requires 0 <= month < 12 && StartDay(year, month) <= k < 42
    ensures MonthGrid(year, month, lookup, today)[k].date
      == DayNumber(Date(FullYear(year), month, 1)) + k - StartDay(year, month)
    ensures WeekDay(MonthGrid(year, month, lookup, today)[k].date) == k % 7
  {
    var p, first := PrevMonthDate(year, month), DayNumber(Date(FullYear(year), month, 1));
    CellOfGrid(year, month, p, lookup, today, k);
    var t := MonthGrid(year, month, lookup, today)[k].date;
    assert t == CellDate(year, month, p, k);
    RunDate(year, month, p, k);
    FirstOfMonth(year, month);
    Column(first, StartDay(year, month), k);
  }

  /**
    As written, the leading cells are the consecutive days that end on day `p` of the month
    before, where `p` is the length of the month two before the shown one.
  */
  lemma LeadingCells(year: int, month: int, lookup: int -> seq<Event>, today: int)
    requires 0 <= month < 12
    ensures PrevMonthDate(year, month) == MonthDays(FullYear(year), month - 2)
    ensures forall k :: 0 <= k < StartDay(year, month) ==>
      MonthGrid(year, month, lookup, today)[k].date
        == MakeDay(FullYear(year), month - 1, 1) + PrevMonthDate(year, month) - StartDay(year, month) + k
  {
    var g, p := MonthGrid(year, month, lookup, today), PrevMonthDate(year, month);
    PrevMonthLength(year, month);
    forall k | 0 <= k < StartDay(year, month)
      ensures g[k].date == MakeDay(FullYear(year), month - 1, 1) + p - StartDay(year, month) + k
    {
      CellOfGrid(year, month, p, lookup, today, k);
      LeadingDate(year, month, p, k);
    }
  }

  /**
    Where the leading cells meet the 1st: the step between the two cells is one day plus the
    difference in length between the month before and the month two before, so the days run
    on exactly when those two months are equally long.
  */
  lemma LeadingSeam(year: int, month: int, lookup: int -> seq<Event>, today: int)
    requires 0 <= month < 12 && 0 < StartDay(year, month)
    ensures var g, lead := MonthGrid(year, month, lookup, today), StartDay(year, month);
      g[lead].date == g[lead - 1].date + 1 + LastDate(year, month - 1) - PrevMonthDate(year, month)
    ensures var g, lead := MonthGrid(year, month, lookup, today), StartDay(year, month);
      g[lead].date == g[lead - 1].date + 1 <==> LastDate(year, month - 1) == PrevMonthDate(year, month)
  {
    var p, lead := PrevMonthDate(year, month), StartDay(year, month);
    CellOfGrid(year, month, p, lookup, today, lead - 1);
    CellOfGrid(year, month, p, lookup, today, lead);
    SeamDate(year, month, p);
  }

  /** The 1st of the shown month is as many days after the 1st of the month before as that month is long. */
  lemma PrevMonthStart(year: int, month: int)
    requires 0 <= month < 12
    ensures MakeDay(FullYear(year), month, 1) == MakeDay(FullYear(year), month - 1, 1) + LastDate(year, month - 1)
  {
    var y := FullYear(year);
    MakeDayNextMonth(y, month - 1);
    assert MakeDay(y, (month - 1) + 1, 1) == MakeDay(y, month, 1);
    LastDateAny(year, month - 1);
  }

  /** The day after the last leading cell, counted from `anchor`, and the 1st of the shown month. */
  lemma SeamDate(year: int, month: int, anchor: int)
    requires 0 <= month < 12 && 0 < StartDay(year, month)
    ensures var lead := StartDay(year, month);
      CellDate(year, month, anchor, lead) == CellDate(year, month, anchor, lead - 1) + 1 + LastDate(year, month - 1) - anchor
  {
    var y, lead := FullYear(year), StartDay(year, month);
    var m0 := MakeDay(y, month - 1, 1);
    LeadingDate(year, month, anchor, lead - 1);
    assert CellDate(year, month, anchor, lead - 1) == m0 + anchor - 1;
    RunDate(year, month, anchor, lead);
    FirstOfMonth(year, month);
    assert CellDate(year, month, anchor, lead) == MakeDay(y, month, 1);
    PrevMonthStart(year, month);
  }

  /**
    The evidently intended grid: the leading cells count back from the last day of the
    month before, `new Date(year, month, 0).getDate()`.
  */
  function CorrectedMonthGrid(year: int, month: int, lookup: int -> seq<Event>, today: int): (g: seq<Cell>)
    ensures |g| == 42
  {
    GridWith(year, month, LastDate(year, month - 1), lookup, today)
  }

  /** With that anchor, every cell is the day after the previous one, and each weekday keeps its column. */
  lemma CorrectedGridConsecutive(year: int, month: int, lookup: int -> seq<Event>, today: int)
    requires 0 <= month < 12
    ensures forall k :: 0 <= k < 42 ==>
      CorrectedMonthGrid(year, month, lookup, today)[k].date
        == DayNumber(Date(FullYear(year), month, 1)) + k - StartDay(year, month)
    ensures forall k :: 0 <= k < 41 ==>
      CorrectedMonthGrid(year, month, lookup, today)[k + 1].date == CorrectedMonthGrid(year, month, lookup, today)[k].date + 1
    ensures forall k :: 0 <= k < 42 ==> WeekDay(CorrectedMonthGrid(year, month, lookup, today)[k].date) == k % 7
  {
    var c, lead := CorrectedMonthGrid(year, month, lookup, today), StartDay(year, month);
    var first := DayNumber(Date(FullYear(year), month, 1));
    FirstOfMonth(year, month);
    forall k | 0 <= k < 42
      ensures c[k].date == first + k - lead && WeekDay(c[k].date) == k % 7
    {
      CorrectedCellDate(year, month, lookup, today, k);
    }
    forall k | 0 <= k < 41
      ensures c[k + 1].date == c[k].date + 1
    {
      CorrectedCellDate(year, month, lookup, today, k);
      CorrectedCellDate(year, month, lookup, today, k + 1);
    }
  }

  /** Cell k of the corrected grid lies `k - startDay` days after the 1st, in column `k % 7`. */
  lemma CorrectedCellDate(year: int, month: int, lookup: int -> seq<Event>, today: int, k: int)
    requires 0 <= month < 12 && 0 <= k < 42
    ensures CorrectedMonthGrid(year, month, lookup, today)[k].date
      == DayNumber(Date(FullYear(year), month, 1)) + k - StartDay(year, month)
    ensures WeekDay(CorrectedMonthGrid(year, month, lookup, today)[k].date) == k % 7
  {
    var q, lead := LastDate(year, month - 1), StartDay(year, month);
    var y := FullYear(year);
    FirstOfMonth(year, month);
    Column(DayNumber(Date(y, month, 1)), lead, k);
    CellOfGrid(year, month, q, lookup, today, k);
    if k < lead {
      PrevMonthStart(year, month);
      assert MakeDay(y, month - 1, 1) + q == DayNumber(Date(y, month, 1));
      LeadingDate(year, month, q, k);
    } else {
      RunDate(year, month, q, k);
    }
  }

  /** The cells from the 1st on do not depend on where the leading cells count back from. */
  lemma SameFromFirst(year: int, month: int, p: int, q: int, lookup: int -> seq<Event>, today: int, k: int)
    requires StartDay(year, month) <= k < 42
    ensures GridWith(year, month, p, lookup, today)[k] == GridWith(year, month, q, lookup, today)[k]
  {
    CellOfGrid(year, month, p, lookup, today, k);
    CellOfGrid(year, month, q, lookup, today, k);
  }

  /**
    The grid as written equals the intended one exactly when there are no leading cells
    or the month before is as long as the month two before.
  */
  lemma AsWrittenIsCorrectIff(year: int, month: int, lookup: int -> seq<Event>, today: int)
    requires 0 <= month < 12
    ensures MonthGrid(year, month, lookup, today) == CorrectedMonthGrid(year, month, lookup, today)
      <==> StartDay(year, month) == 0 || PrevMonthDate(year, month) == LastDate(year, month - 1)
  {
    var g, c := MonthGrid(year, month, lookup, today), CorrectedMonthGrid(year, month, lookup, today);
    var p, q, lead := PrevMonthDate(year, month), LastDate(year, month - 1), StartDay(year, month);
    if lead == 0 {
      forall k | 0 <= k < 42
        ensures g[k] == c[k]
      {
        SameFromFirst(year, month, p, q, lookup, today, k);
      }
      assert g == c;
    } else if p != q {
      var m0 := MakeDay(FullYear(year), month - 1, 1);
      CellOfGrid(year, month, p, lookup, today, lead - 1);
      LeadingDate(year, month, p, lead - 1);
      CellOfGrid(year, month, q, lookup, today, lead - 1);
      LeadingDate(year, month, q, lead - 1);
      assert g[lead - 1].date == m0 + p - 1 && c[lead - 1].date == m0 + q - 1;
      assert g[lead - 1] != c[lead - 1];
    }
  }

  /** From the year 100 on, `new Date(year, month, 1)` falls in `year` itself. */
  lemma StartDayFrom100(year: int, month: int)
    requires 100 <= year && 0 <= month < 12
    ensures StartDay(year, month) == WeekDay(DayNumber(Date(year, month, 1)))
  {
    FirstOfMonth(year, month);
  }

  /** The 1st of March 2024 is a Friday and the 1st of April 2024 a Monday. */
  lemma StartDays2024(year: int)
    requires year == 2024
    ensures StartDay(year, 2) == 5 && StartDay(year, 3) == 1
  {
    WeekDaysOf2024(year);
    StartDayFrom100(year, 2);
    StartDayFrom100(year, 3);
  }

  lemma WeekDaysOf2024(year: int)
    requires year == 2024
    ensures WeekDay(DayNumber(Date(year, 2, 1))) == 5 && WeekDay(DayNumber(Date(year, 3, 1))) == 1
  {
    FirstDays2024(year);
  }

  /** Seen from April 2024, the month two before is February, which has 29 days that year. */
  lemma AprilAnchor2024(year: int)
    requires year == 2024
    ensures PrevMonthDate(year, 3) == 29
  {
    assert FullYear(year) == year && IsLeapYear(year);
    assert MonthDays(year, 1) == 29 by {
      assert 1 / 12 == 0 && 1 % 12 == 1;
    }
    PrevMonthLength(year, 3);
  }

  lemma April2024First(year: int, lookup: int -> seq<Event>, today: int)
    requires year == 2024
    ensures Civil(MonthGrid(year, 3, lookup, today)[0].date) == Date(year, 2, 29)
  {
    StartDays2024(year);
    AprilAnchor2024(year);
    var t := MonthGrid(year, 3, lookup, today)[0].date;
    CellOfGrid(year, 3, 29, lookup, today, 0);
    LeadingDate(year, 3, 29, 0);
    assert t == MakeDay(year, 2, 1) + 28;
    MakeDayOffset(year, 2, 29);
    MakeDayValidInYear(year, 2, 29);
    assert t == MakeDay(year, 2, 29);
  }

  lemma April2024Second(year: int, lookup: int -> seq<Event>, today: int)
    requires year == 2024
    ensures Civil(MonthGrid(year, 3, lookup, today)[1].date) == Date(year, 3, 1)
  {
    StartDays2024(year);
    CurrentMonthCells(year, 3, lookup, today);
    assert FullYear(year) == year;
  }

  lemma April2024Step(year: int, lookup: int -> seq<Event>, today: int)
    requires year == 2024
    ensures MonthGrid(year, 3, lookup, today)[1].date == MonthGrid(year, 3, lookup, today)[0].date + 3
  {
    StartDays2024(year);
    AprilAnchor2024(year);
    MonthLength(year, 2);
    assert LastDate(year, 2) == 31;
    LeadingSeam(year, 3, lookup, today);
  }

  /**
    April 2024 as written: one leading cell, March 29, then April 1, so March 30 and 31 are
    never shown.
  */
  lemma April2024Gap(year: int, lookup: int -> seq<Event>, today: int)
    requires year == 2024
    ensures var g := MonthGrid(year, 3, lookup, today);
      && StartDay(year, 3) == 1
      && Civil(g[0].date) == Date(year, 2, 29)
      && Civil(g[1].date) == Date(year, 3, 1)
      && g[1].date == g[0].date + 3
  {
    StartDays2024(year);
    April2024First(year, lookup, today);
    April2024Second(year, lookup, today);
    April2024Step(year, lookup, today);
  }

  /** Seen from March 2024, the month two before is January, which has 31 days. */
  lemma MarchAnchor2024(year: int)
    requires year == 2024
    ensures PrevMonthDate(year, 2) == 31
  {
    assert FullYear(year) == year && DaysInMonth(year, 0) == 31;
    PrevMonthLength(year, 2);
  }

  /** The five leading cells of March 2024 count on from February 27. */
  lemma March2024Leading(year: int, lookup: int -> seq<Event>, today: int)
    requires year == 2024
    ensures forall k :: 0 <= k < 5 ==> MonthGrid(year, 2, lookup, today)[k].date == MakeDay(year, 1, 1) + 26 + k
  {
    StartDays2024(year);
    MarchAnchor2024(year);
    assert FullYear(year) == year;
    LeadingCells(year, 2, lookup, today);
  }

  /** From cell 5 on, March 2024 counts on from March 1, which is 29 days after February 1. */
  lemma March2024Run(year: int, lookup: int -> seq<Event>, today: int)
    requires year == 2024
    ensures forall k :: 5 <= k < 42 ==> MonthGrid(year, 2, lookup, today)[k].date == MakeDay(year, 1, 1) + 29 + k - 5
  {
    StartDays2024(year);
    assert FullYear(year) == year;
    DaysRunOn(year, 2, lookup, today);
    MarchFirst2024(year);
  }

  /** March 1 2024 is 29 days after February 1. */
  lemma MarchFirst2024(year: int)
    requires year == 2024
    ensures DayNumber(Date(year, 2, 1)) == MakeDay(year, 1, 1) + 29
  {
    FirstDays2024(year);
    MakeDayInYear(year, 1, 1);
  }

  /** February 27, 28 and 29 2024 are 26, 27 and 28 days after February 1. */
  lemma FebruaryEnd2024(year: int, d: int)
    requires year == 2024 && 27 <= d <= 29
    ensures Civil(MakeDay(year, 1, 1) + d - 1) == Date(year, 1, d)
  {
    assert IsLeapYear(year);
    assert 1 <= d <= DaysInMonth(year, 1);
    MakeDayOffset(year, 1, d);
    MakeDayValidInYear(year, 1, d);
  }

  /**
    March 2024 as written: the leading cells are February 27, 28 and 29 and then March 1 and 2
    again, so cells 3 and 5 and cells 4 and 6 show the same day.
  */
  lemma March2024Repeats(year: int, lookup: int -> seq<Event>, today: int)
    requires year == 2024
    ensures var g := MonthGrid(year, 2, lookup, today);
      && StartDay(year, 2) == 5
      && Civil(g[0].date) == Date(year, 1, 27) && Civil(g[1].date) == Date(year, 1, 28)
      && Civil(g[2].date) == Date(year, 1, 29)
      && g[3].date == g[5].date && g[4].date == g[6].date
      && Civil(g[5].date) == Date(year, 2, 1) && Civil(g[6].date) == Date(year, 2, 2)
      && g[3].otherMonth && g[4].otherMonth && !g[5].otherMonth && !g[6].otherMonth
  {
    var g := MonthGrid(year, 2, lookup, today);
    StartDays2024(year);
    March2024Leading(year, lookup, today);
    March2024Run(year, lookup, today);
    FebruaryEnd2024(year, 27);
    FebruaryEnd2024(year, 28);
    FebruaryEnd2024(year, 29);
    assert g[0].date == MakeDay(year, 1, 1) + 26;
    CurrentMonthCells(year, 2, lookup, today);
    GridLayout(year, 2, lookup, today);
    assert FullYear(year) == year;
  }

  /** A cell lists exactly the events whose date string is `formatDate` of its day. */
  lemma EventInCellIff(year: int, month: int, events: seq<Event>, today: int, k: int, e: Event)
    requires 0 <= k < 42
    ensures var c := MonthGrid(year, month, EventLookup(events), today)[k];
      e in c.events <==> e in events && e.date == FormatDate(c.date)
  {
    CellOfGrid(year, month, PrevMonthDate(year, month), EventLookup(events), today, k);
  }

  /** Day `d` of the shown month is in cell `startDay + d - 1`, and no other cell from the 1st on shows it. */
  lemma CellOfDay(year: int, month: int, lookup: int -> seq<Event>, today: int, d: int)
    requires 0 <= month < 12 && 1 <= d <= DaysInMonth(FullYear(year), month)
    ensures var g, j := MonthGrid(year, month, lookup, today), StartDay(year, month) + d - 1;
      && g[j].date == DayNumber(Date(FullYear(year), month, d))
      && forall k :: StartDay(year, month) <= k < 42 && k != j ==> g[k].date != g[j].date
  {
    var g, lead, j := MonthGrid(year, month, lookup, today), StartDay(year, month), StartDay(year, month) + d - 1;
    var first := DayNumber(Date(FullYear(year), month, 1));
    MonthLength(year, month);
    DaysRunOn(year, month, lookup, today);
    assert g[j].date == first + d - 1;
    forall k | lead <= k < 42 && k != j
      ensures g[k].date != g[j].date
    {
      assert g[k].date == first + k - lead;
    }
  }

  /**
    An event on day `d` of the shown month is listed in that day's cell and, from the 1st on,
    in no other cell.
  */
  lemma EventInOneCell(year: int, month: int, events: seq<Event>, today: int, e: Event, d: int)
    requires 0 <= month < 12 && 1 <= d <= DaysInMonth(FullYear(year), month)
    requires e in events && e.date == FormatCivil(Date(FullYear(year), month, d))
    ensures var g, j := MonthGrid(year, month, EventLookup(events), today), StartDay(year, month) + d - 1;
      && e in g[j].events
      && forall k :: StartDay(year, month) <= k < 42 && k != j ==> e !in g[k].events
  {
    var g, lead := MonthGrid(year, month, EventLookup(events), today), StartDay(year, month);
    var j := lead + d - 1;
    CellOfDay(year, month, EventLookup(events), today, d);
    FormatDayNumber(Date(FullYear(year), month, d));
    EventInCellIff(year, month, events, today, j, e);
    forall k | lead <= k < 42 && k != j
      ensures e !in g[k].events
    {
      EventInCellIff(year, month, events, today, k, e);
      if e in g[k].events {
        FormatDateInjective(g[k].date, g[j].date);
      }
    }
  }

  /** As written, an event on March 1 2024 is listed twice in the March 2024 grid: in cell 3 and in cell 5. */
  lemma March1EventTwice(year: int, events: seq<Event>, today: int, e: Event)
    requires year == 2024 && e in events && e.date == FormatCivil(Date(year, 2, 1))
    ensures var g := MonthGrid(year, 2, EventLookup(events), today);
      e in g[3].events && e in g[5].events
  {
    var g := MonthGrid(year, 2, EventLookup(events), today);
    March2024Repeats(year, EventLookup(events), today);
    assert e.date == FormatDate(g[5].date);
    EventInCellIff(year, 2, events, today, 3, e);
    EventInCellIff(year, 2, events, today, 5, e);
  }

  /** An event dated 2024-03-15 is listed in the March 15 cell of the March 2024 grid and in no other cell. */
  lemma March15EventOnce(year: int, events: seq<Event>, today: int, e: Event)
    requires year == 2024 && e in events && e.date == FormatCivil(Date(year, 2, 15))
    ensures var g := MonthGrid(year, 2, EventLookup(events), today);
      e in g[19].events && forall k :: 0 <= k < 42 && k != 19 ==> e !in g[k].events
  {
    var g := MonthGrid(year, 2, EventLookup(events), today);
    StartDays2024(year);
    assert FullYear(year) == year && DaysInMonth(year, 2) == 31;
    EventInOneCell(year, 2, events, today, e, 15);
    March2024Leading(year, EventLookup(events), today);
    March2024Run(year, EventLookup(events), today);
    EventInCellIff(year, 2, events, today, 19, e);
    forall k | 0 <= k < 5
      ensures e !in g[k].events
    {
      EventInCellIff(year, 2, events, today, k, e);
      if e in g[k].events {
        FormatDateInjective(g[k].date, g[19].date);
      }
    }
  }
}
