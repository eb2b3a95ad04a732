/**
 * Calendar grids, the placement of events on days, and the fetch window (internal/widget/calendar.go).
 * Times are wall-clock times in a zone with a fixed offset.
 */
module Calendar {
  import opened Prelude
  import opened CivilCalendar

  /** A day number (module CivilCalendar) and the nanoseconds since its midnight. */
  datatype Clock = Clock(day: int, ns: int)
  type Time = t: Clock | 0 <= t.ns < DAY witness Clock(0, 0)

  predicate Before(a: Time, b: Time) {
    a.day < b.day || (a.day == b.day && a.ns < b.ns)
  }

  function Midnight(n: int): Time { Clock(n, 0) }
  function DateOf(t: Time): Time { Midnight(t.day) }
  function AddDays(t: Time, n: int): Time { Clock(t.day + n, t.ns) }

  /** sameDate compares the year, month and day of two times. */
  predicate SameDate(a: Time, b: Time) { Civil(a.day) == Civil(b.day) }

  lemma SameDateMeansSameDay(a: Time, b: Time)
    ensures SameDate(a, b) <==> a.day == b.day
  {
    OrdOfCivil(a.day);
    OrdOfCivil(b.day);
  }

  // ---------- events and days ----------

  datatype Event = Event(start: Time, end: Option<Time>, title: string, color: string, allDay: bool)

  /** Midnight of the last day the event occupies. */
  function LastDay(e: Event): Time {
    var sd := DateOf(e.start);
    if e.end.None? || !Before(e.start, e.end.value) then sd
    else
      var midnight := DateOf(e.end.value);
      var ed := if e.allDay || e.end.value == midnight then AddDays(midnight, -1) else midnight;
      if Before(ed, sd) then sd else ed
  }

  predicate Occupies(e: Event, day: Time) {
    !Before(DateOf(day), DateOf(e.start)) && !Before(LastDay(e), DateOf(day))
  }

  predicate OnDay(e: Event, n: int) {
    Occupies(e, Midnight(n))
  }

  /** A timed event occupies exactly the days that its half-open interval [start, end) meets. */
  lemma TimedEventOccupiesWhatItMeets(e: Event, n: int)
    requires !e.allDay && e.end.Some? && Before(e.start, e.end.value)
    ensures OnDay(e, n) <==> Before(e.start, Midnight(n + 1)) && Before(Midnight(n), e.end.value)
  {
  }

  /** The midnight of a day in another zone, seen from a zone that is shift ahead of it. */
  function ShiftedMidnight(n: int, shift: int): Time
    requires -DAY < shift < DAY
  {
    if shift >= 0 then Clock(n, shift) else Clock(n - 1, DAY + shift)
  }

  /**
   * An all-day event whose bounds are midnights, seen in a zone whose offset from theirs is shift:
   * it occupies exactly the days before its exclusive DTEND (section 3.6.1 of RFC 5545) if and only
   * if the zone does not lie behind; otherwise it shows one day early throughout.
   */
  lemma AllDayEventEndsBeforeDtend(e: Event, first: int, dtend: int, shift: int)
    requires e.allDay && -DAY < shift < DAY && first < dtend
    requires e.start == ShiftedMidnight(first, shift) && e.end == Some(ShiftedMidnight(dtend, shift))
    ensures (forall n :: OnDay(e, n) <==> first <= n < dtend) <==> shift >= 0
    ensures shift < 0 ==> forall n :: OnDay(e, n) <==> first - 1 <= n < dtend - 1
  {
    if shift < 0 {
      assert OnDay(e, first - 1);
    }
  }

  /** An event without an end, or with one that is not after its start, is on its start day alone. */
  lemma EventWithoutEndIsOnItsStartDay(e: Event, n: int)
    requires e.end.None? || !Before(e.start, e.end.value)
    ensures OnDay(e, n) <==> n == e.start.day
  {
  }

  // ---------- grids ----------

  /** The text of a line: its start time on the day a timed event starts, a bullet otherwise. */
  datatype Label = At(hour: int, minute: int, title: string) | Bullet(title: string)
  datatype Item = Item(text: Label, color: string)
  datatype Cell = Cell(day: int, inMonth: bool, today: bool, events: seq<Item>)
  type Grid = seq<seq<Cell>>

  function Line(e: Event, day: Time): Item {
    Item(if e.allDay || !SameDate(e.start, day) then Bullet(e.title)
         else At(e.start.ns / (60 * MINUTE), e.start.ns / MINUTE % 60, e.title), e.color)
  }

  /** A line gives the time to the minute on the day a timed event starts, and a bullet on all others. */
  lemma LineShowsStartTime(e: Event, n: int)
    ensures var l := Line(e, Midnight(n));
            && l.color == e.color && l.text.title == e.title
            && (l.text.At? <==> !e.allDay && e.start.day == n)
            && (l.text.At? ==>
                  && 0 <= l.text.hour < 24 && 0 <= l.text.minute < 60
                  && l.text.hour * 60 + l.text.minute == e.start.ns / 60_000_000_000)
  {
    SameDateMeansSameDay(e.start, Midnight(n));
    var ns := e.start.ns;
    var h, m := ns / 3_600_000_000_000, ns / 60_000_000_000;
    assert m / 60 == h;
  }

  /** The lines of a day, in the order of the events. */
  function LinesOn(all: seq<Event>, n: int): seq<Item> {
    if all == [] then []
    else LinesOn(all[..|all| - 1], n)
         + if OnDay(all[|all| - 1], n) then [Line(all[|all| - 1], Midnight(n))] else []
  }

  method CollectLines(all: seq<Event>, n: int) returns (lines: seq<Item>)
    ensures lines == LinesOn(all, n)
  {
    lines := [];
    for i := 0 to |all|
      invariant lines == LinesOn(all[..i], n)
    {
      assert all[..i + 1][..i] == all[..i];
      if Occupies(all[i], Midnight(n)) {
        lines := lines + [Line(all[i], Midnight(n))];
      }
    }
    assert all[..|all|] == all;
  }

  function MonthCell(now: Time, all: seq<Event>, n: int): Cell {
    Cell(Civil(n).day, Civil(n).month == Civil(now.day).month, SameDate(Midnight(n), now), LinesOn(all, n))
  }

  function PlainCell(now: Time, all: seq<Event>, n: int): Cell {
    Cell(Civil(n).day, true, SameDate(Midnight(n), now), LinesOn(all, n))
  }

  function MonthRow(now: Time, all: seq<Event>, n: int): seq<Cell> {
    seq(7, i => MonthCell(now, all, n + i))
  }

  function PlainRow(now: Time, all: seq<Event>, n: int): seq<Cell> {
    seq(7, i => PlainCell(now, all, n + i))
  }

  predicate AnyInMonth(row: seq<Cell>) {
    exists i :: 0 <= i < |row| && row[i].inMonth
  }

  /** The rows of the weeks from day n on that hold a day of the month. */
  function KeptRows(now: Time, all: seq<Event>, n: int, weeks: nat): Grid
    decreases weeks
  {
    if weeks == 0 then []
    else
      var row := MonthRow(now, all, n);
      (if AnyInMonth(row) then [row] else []) + KeptRows(now, all, n + 7, weeks - 1)
  }

  function FirstOfMonth(now: Time): int {
    var d := Civil(now.day);
    Ord(Date(d.year, d.month, 1))
  }

  function MonthStart(now: Time): int {
    FirstOfMonth(now) - SinceMonday(FirstOfMonth(now))
  }

  lemma KeptRowsStep(now: Time, all: seq<Event>, n: int, weeks: nat)
    ensures KeptRows(now, all, n, weeks)
            == if weeks == 0 then []
               else
                 var row := MonthRow(now, all, n);
                 (if AnyInMonth(row) then [row] else []) + KeptRows(now, all, n + 7, weeks - 1)
  {
  }

  method BuildMonth(now: Time, all: seq<Event>) returns (grid: Grid)
    ensures grid == KeptRows(now, all, MonthStart(now), 6)
  {
    hide MonthStart, MonthRow, KeptRows;
    var day := MonthStart(now);
    grid := [];
    for w := 0 to 6
      invariant day == MonthStart(now) + 7 * w
      invariant grid + KeptRows(now, all, day, 6 - w) == KeptRows(now, all, MonthStart(now), 6)
    {
      KeptRowsStep(now, all, day, 6 - w);
      var week, anyInMonth := BuildMonthWeek(now, all, day);
      if anyInMonth {
        grid := grid + [week];
      }
      day := day + 7;
    }
    KeptRowsStep(now, all, day, 0);
  }

  /** The inner loop of buildMonth. */
  method BuildMonthWeek(now: Time, all: seq<Event>, monday: int) returns (week: seq<Cell>, anyInMonth: bool)
    ensures week == MonthRow(now, all, monday) && (anyInMonth <==> AnyInMonth(week))
  {
    var day := monday;
    week, anyInMonth := [], false;
    for d := 0 to 7
      invariant day == monday + d
      invariant week == MonthRow(now, all, monday)[..d]
      invariant anyInMonth <==> AnyInMonth(week)
    {
      var lines := CollectLines(all, day);
      var cell := Cell(Civil(day).day, Civil(day).month == Civil(now.day).month, SameDate(Midnight(day), now), lines);
      assert cell == MonthCell(now, all, monday + d);
      if cell.inMonth {
        anyInMonth := true;
      }
      ghost var before := week;
      week := week + [cell];
      assert week[d] == cell && forall i :: 0 <= i < d ==> week[i] == before[i];
      day := day + 1;
    }
  }

  function PlainRows(now: Time, all: seq<Event>, n: int, weeks: nat): (grid: Grid)
    ensures |grid| == weeks && forall w :: 0 <= w < weeks ==> |grid[w]| == 7
  {
    seq(weeks, w => PlainRow(now, all, n + 7 * w))
  }

  /** The nested loops shared by buildWeekGrid and buildAbsWeeks, from a given first day. */
  method BuildRows(now: Time, all: seq<Event>, first: int, count: nat) returns (grid: Grid)
    ensures grid == PlainRows(now, all, first, count)
  {
    var day := first;
    grid := [];
    for w := 0 to count
      invariant day == first + 7 * w && grid == PlainRows(now, all, first, count)[..w]
    {
      var week: seq<Cell> := [];
      ghost var monday := day;
      for d := 0 to 7
        invariant day == monday + d && week == PlainRow(now, all, monday)[..d]
      {
        var lines := CollectLines(all, day);
        var cell := Cell(Civil(day).day, true, SameDate(Midnight(day), now), lines);
        assert cell == PlainCell(now, all, monday + d);
        week := week + [cell];
        day := day + 1;
      }
      assert week == PlainRow(now, all, first + 7 * w);
      grid := grid + [week];
    }
  }

  function WeekGridStart(now: Time, before: nat): int {
    var base := now.day - 7 * before;
    base - SinceMonday(base)
  }

  method BuildWeekGrid(now: Time, all: seq<Event>, before: nat, ahead: nat) returns (grid: Grid)
    ensures grid == PlainRows(now, all, WeekGridStart(now, before), before + ahead + 1)
  {
    grid := BuildRows(now, all, WeekGridStart(now, before), before + ahead + 1);
  }

  function AbsWeekCount(ahead: nat): nat {
    if ahead < 1 then 1 else if ahead > 12 then 12 else ahead
  }

  /** startDay is the parsed start_date, None when it is blank or does not parse. */
  function AbsStart(now: Time, startDay: Option<int>): int {
    var s := if startDay.Some? then startDay.value else now.day;
    s - SinceMonday(s)
  }

  method BuildAbsWeeks(now: Time, all: seq<Event>, startDay: Option<int>, ahead: nat) returns (grid: Grid)
    ensures grid == PlainRows(now, all, AbsStart(now, startDay), AbsWeekCount(ahead))
  {
    grid := BuildRows(now, all, AbsStart(now, startDay), AbsWeekCount(ahead));
  }

  /** A cell of a week grid stands for its own day. */
  predicate CellIsOfDay(now: Time, all: seq<Event>, c: Cell, n: int) {
    c.day == Civil(n).day && c.inMonth && (c.today <==> n == now.day) && c.events == LinesOn(all, n)
  }

  lemma RowsShowTheirDays(now: Time, all: seq<Event>, first: int, weeks: nat, w: nat, k: nat)
    requires w < weeks && k < 7
    ensures var grid := PlainRows(now, all, first, weeks);
            |grid| == weeks && |grid[w]| == 7 && CellIsOfDay(now, all, grid[w][k], first + 7 * w + k)
  {
    var n := first + 7 * w + k;
    SameDateMeansSameDay(Midnight(n), now);
    assert PlainRows(now, all, first, weeks)[w] == PlainRow(now, all, first + 7 * w);
    assert PlainRow(now, all, first + 7 * w)[k] == PlainCell(now, all, n);
  }

  /**
   * A pinned grid starts on the Monday of the week of its date, of today's without one, has between
   * one and twelve weeks, as asked, and each cell shows its own day.
   */
  lemma PinnedGridStartsOnMonday(now: Time, all: seq<Event>, startDay: Option<int>, ahead: nat)
    ensures var first, s := AbsStart(now, startDay), if startDay.Some? then startDay.value else now.day;
            var grid := PlainRows(now, all, first, AbsWeekCount(ahead));
            && Weekday(first) == 1 && first <= s < first + 7
            && |grid| == (if ahead == 0 then 1 else if ahead >= 12 then 12 else ahead)
            && forall w, k :: 0 <= w < |grid| && 0 <= k < 7 ==>
                 |grid[w]| == 7 && CellIsOfDay(now, all, grid[w][k], first + 7 * w + k)
  {
    SinceMondayIsRemainder(if startDay.Some? then startDay.value else now.day);
    var first, weeks := AbsStart(now, startDay), AbsWeekCount(ahead);
    forall w, k | 0 <= w < weeks && 0 <= k < 7
      ensures CellIsOfDay(now, all, PlainRows(now, all, first, weeks)[w][k], first + 7 * w + k)
    {
      RowsShowTheirDays(now, all, first, weeks, w, k);
    }
  }

  /** The relative week grid starts on the Monday of the week so many weeks back, and each cell shows its own day. */
  lemma WeekGridStartsOnMonday(now: Time, all: seq<Event>, before: nat, ahead: nat)
    ensures var first := WeekGridStart(now, before);
            var grid := PlainRows(now, all, first, before + ahead + 1);
            && Weekday(first) == 1 && first <= now.day - 7 * before < first + 7
            && |grid| == before + ahead + 1
            && forall w, k :: 0 <= w < |grid| && 0 <= k < 7 ==>
                 |grid[w]| == 7 && CellIsOfDay(now, all, grid[w][k], first + 7 * w + k)
  {
    SinceMondayIsRemainder(now.day - 7 * before);
    var first, weeks := WeekGridStart(now, before), before + ahead + 1;
    forall w, k | 0 <= w < weeks && 0 <= k < 7
      ensures CellIsOfDay(now, all, PlainRows(now, all, first, weeks)[w][k], first + 7 * w + k)
    {
      RowsShowTheirDays(now, all, first, weeks, w, k);
    }
  }

  // ---------- the month grid ----------

  /** How many weeks the month touches. */
  function WeeksOfMonth(now: Time): int {
    (PlaceOf(now, DaysOfMonth(now)) + 7) / 7
  }

  lemma NowIsInItsMonth(now: Time)
    ensures var d := Civil(now.day); now.day == FirstOfMonth(now) + d.day - 1
  {
    OrdOfCivil(now.day);
  }

  function DaysOfMonth(now: Time): int {
    var d := Civil(now.day);
    DaysIn(d.year, d.month)
  }

  /** The place in the grid, counted from 0, of a day of the month. */
  function PlaceOf(now: Time, day: int): int {
    SinceMonday(FirstOfMonth(now)) + day - 1
  }

  /** The cell at place j is labelled as the day it stands for. */
  predicate CellIsRight(now: Time, c: Cell, j: int) {
    (c.inMonth <==> PlaceOf(now, 1) <= j <= PlaceOf(now, DaysOfMonth(now)))
    && (c.inMonth ==> j == PlaceOf(now, c.day))
    && (c.today <==> j == PlaceOf(now, Civil(now.day).day))
  }

  /** Comparing month numbers without the year never mislabels a cell of the six weeks. */
  lemma InMonthCells(now: Time, all: seq<Event>, j: int)
    requires 0 <= j < 42
    ensures CellIsRight(now, MonthCell(now, all, MonthStart(now) + j), j)
    ensures var c, n := MonthCell(now, all, MonthStart(now) + j), MonthStart(now) + j;
            c.day == Civil(n).day && c.events == LinesOn(all, n)
  {
    var d := Civil(now.day);
    AroundMonth(d.year, d.month, j - SinceMonday(FirstOfMonth(now)));
    NowIsInItsMonth(now);
    SameDateMeansSameDay(Midnight(MonthStart(now) + j), now);
  }

  lemma RowInMonth(now: Time, all: seq<Event>, w: nat)
    requires w < 6
    ensures AnyInMonth(MonthRow(now, all, MonthStart(now) + 7 * w)) <==> w < WeeksOfMonth(now)
  {
    var row := MonthRow(now, all, MonthStart(now) + 7 * w);
    hide MonthCell, MonthStart;
    forall i | 0 <= i < 7
      ensures row[i].inMonth <==> PlaceOf(now, 1) <= 7 * w + i <= PlaceOf(now, DaysOfMonth(now))
    {
      InMonthCells(now, all, 7 * w + i);
      assert MonthStart(now) + 7 * w + i == MonthStart(now) + (7 * w + i);
    }
    if w < WeeksOfMonth(now) {
      assert row[if w == 0 then PlaceOf(now, 1) else 0].inMonth;
    }
  }

  lemma {:induction false} KeptRowsAre(now: Time, all: seq<Event>, w: nat, n: int)
    requires w <= 6 && n == MonthStart(now) + 7 * w
    ensures var k, rows := WeeksOfMonth(now), KeptRows(now, all, n, 6 - w);
            |rows| == (if w < k then k - w else 0)
            && forall v :: 0 <= v < |rows| ==> rows[v] == MonthRow(now, all, n + 7 * v)
    decreases 6 - w
  {
    hide MonthRow, MonthStart, WeeksOfMonth, PlaceOf, KeptRows, AnyInMonth;
    FourToSixWeeks(now);
    KeptRowsStep(now, all, n, 6 - w);
    if w < 6 {
      RowInMonth(now, all, w);
      KeptRowsAre(now, all, w + 1, n + 7);
    }
  }

  lemma FourToSixWeeks(now: Time)
    ensures 4 <= WeeksOfMonth(now) <= 6 && PlaceOf(now, DaysOfMonth(now)) < 7 * WeeksOfMonth(now)
    ensures Weekday(MonthStart(now)) == 1
  {
    SinceMondayIsRemainder(FirstOfMonth(now));
    hide Civil, Ord, SinceMonday, Weekday;
    var d := Civil(now.day);
    assert 28 <= DaysIn(d.year, d.month) <= 31;
  }

  lemma MonthRows(now: Time, all: seq<Event>)
    ensures KeptRows(now, all, MonthStart(now), 6)
            == seq(WeeksOfMonth(now), w requires 0 <= w => MonthRow(now, all, MonthStart(now) + 7 * w))
  {
    hide MonthRow, MonthStart, KeptRows, WeeksOfMonth, PlaceOf, DaysOfMonth, Weekday;
    FourToSixWeeks(now);
    KeptRowsAre(now, all, 0, MonthStart(now));
    var rows := KeptRows(now, all, MonthStart(now), 6);
    assert |rows| == WeeksOfMonth(now);
    assert forall w :: 0 <= w < |rows| ==> rows[w] == MonthRow(now, all, MonthStart(now) + 7 * w);
  }

  /**
   * The month grid of any date: four to six Monday-first weeks of seven consecutive days, in which
   * the days 1, 2, ... of the month stand at consecutive places, each once and with InMonth, nothing
   * else has InMonth, and the one cell with Today is that of the date.
   */
  lemma MonthGridShowsTheMonth(now: Time, all: seq<Event>)
    ensures var grid := KeptRows(now, all, MonthStart(now), 6);
            4 <= |grid| <= 6 && Weekday(MonthStart(now)) == 1 && PlaceOf(now, DaysOfMonth(now)) < 7 * |grid|
            && forall w, i :: 0 <= w < |grid| && 0 <= i < 7 ==>
                 |grid[w]| == 7 && grid[w][i] == MonthCell(now, all, MonthStart(now) + 7 * w + i)
                 && CellIsRight(now, grid[w][i], 7 * w + i)
  {
    MonthRows(now, all);
    FourToSixWeeks(now);
    hide KeptRows, MonthCell, CellIsRight, MonthStart, WeeksOfMonth, PlaceOf, DaysOfMonth, Weekday;
    var grid := KeptRows(now, all, MonthStart(now), 6);
    forall w, i | 0 <= w < |grid| && 0 <= i < 7
      ensures |grid[w]| == 7 && grid[w][i] == MonthCell(now, all, MonthStart(now) + 7 * w + i)
              && CellIsRight(now, grid[w][i], 7 * w + i)
    {
      InMonthCells(now, all, 7 * w + i);
      assert grid[w] == MonthRow(now, all, MonthStart(now) + 7 * w);
      assert MonthStart(now) + 7 * w + i == MonthStart(now) + (7 * w + i);
    }
  }

  // ---------- every event is listed on each of its days ----------

  /** Days that the event's span shares with the n days from first on. */
  function SharedDays(e: Event, first: int, n: nat): int {
    Max(0, Min(LastDay(e).day + 1, first + n) - Max(e.start.day, first))
  }

  function SharedByAll(all: seq<Event>, first: int, n: nat): int {
    if all == [] then 0 else SharedByAll(all[..|all| - 1], first, n) + SharedDays(all[|all| - 1], first, n)
  }

  function RowTotal(row: seq<Cell>): int {
    if row == [] then 0 else RowTotal(row[..|row| - 1]) + |row[|row| - 1].events|
  }

  function GridTotal(grid: Grid): int {
    if grid == [] then 0 else GridTotal(grid[..|grid| - 1]) + RowTotal(grid[|grid| - 1])
  }

  lemma {:induction false} LinesOfDay(all: seq<Event>, first: int, n: nat)
    ensures SharedByAll(all, first, n + 1) == SharedByAll(all, first, n) + |LinesOn(all, first + n)|
  {
    if all != [] {
      var e := all[|all| - 1];
      LinesOfDay(all[..|all| - 1], first, n);
    }
  }

  lemma {:induction false} NothingShared(all: seq<Event>, first: int)
    ensures SharedByAll(all, first, 0) == 0
  {
    if all != [] {
      NothingShared(all[..|all| - 1], first);
    }
  }

  lemma {:induction false} RowListsShared(now: Time, all: seq<Event>, first: int, n: nat, k: nat)
    requires k <= 7
    ensures RowTotal(PlainRow(now, all, first + n)[..k]) == SharedByAll(all, first, n + k) - SharedByAll(all, first, n)
  {
    var row := PlainRow(now, all, first + n);
    if k > 0 {
      RowListsShared(now, all, first, n, k - 1);
      LinesOfDay(all, first, n + k - 1);
      assert row[..k][..k - 1] == row[..k - 1];
      assert row[k - 1] == PlainCell(now, all, first + n + (k - 1));
      assert first + n + (k - 1) == first + (n + k - 1);
    }
  }

  /**
   * Nothing is listed too often or too rarely: the lines of a grid of whole weeks are, event by
   * event, the days of the event's span that fall into the grid.
   */
  lemma {:induction false} GridListsEveryDayOfEveryEvent(now: Time, all: seq<Event>, first: int, weeks: nat)
    ensures GridTotal(PlainRows(now, all, first, weeks)) == SharedByAll(all, first, 7 * weeks)
  {
    if weeks == 0 {
      NothingShared(all, first);
    } else {
      var grid := PlainRows(now, all, first, weeks);
      GridListsEveryDayOfEveryEvent(now, all, first, weeks - 1);
      assert grid[..weeks - 1] == PlainRows(now, all, first, weeks - 1);
      RowListsShared(now, all, first, 7 * (weeks - 1), 7);
      assert grid[weeks - 1] == PlainRow(now, all, first + 7 * (weeks - 1));
      assert grid[weeks - 1][..7] == grid[weeks - 1];
    }
  }

  /** How many of n days from first on the event is on. */
  function DaysOn(e: Event, first: int, n: nat): nat {
    if n == 0 then 0 else DaysOn(e, first, n - 1) + if OnDay(e, first + n - 1) then 1 else 0
  }

  lemma {:induction false} DaysOnAreShared(e: Event, first: int, n: nat)
    ensures DaysOn(e, first, n) == SharedDays(e, first, n)
  {
    if n > 0 {
      DaysOnAreShared(e, first, n - 1);
    }
  }

  lemma {:induction false} LinesAround(all: seq<Event>, i: nat, d: int)
    requires i < |all|
    ensures LinesOn(all, d) == LinesOn(all[..i], d)
            + (if OnDay(all[i], d) then [Line(all[i], Midnight(d))] else []) + LinesOn(all[i + 1..], d)
    decreases |all|
  {
    var init := all[..|all| - 1];
    if i < |init| {
      LinesAround(init, i, d);
      assert init[..i] == all[..i] && all[i + 1..][..|all[i + 1..]| - 1] == init[i + 1..];
    } else {
      assert all[i + 1..] == [];
    }
  }

  lemma CellLines(now: Time, all: seq<Event>, first: int, weeks: nat, w: nat, k: nat)
    requires w < weeks && k < 7
    ensures PlainRows(now, all, first, weeks)[w][k].events == LinesOn(all, first + 7 * w + k)
  {
    assert PlainRows(now, all, first, weeks)[w] == PlainRow(now, all, first + 7 * w);
    assert PlainRow(now, all, first + 7 * w)[k] == PlainCell(now, all, first + 7 * w + k);
  }

  /**
   * Among any events, each one has exactly one line, at its place in the order, in every cell of a day
   * it occupies and none elsewhere, and these cells are as many as its span has days in the grid.
   */
  lemma EventAppearsOnItsDays(now: Time, all: seq<Event>, i: nat, first: int, weeks: nat)
    requires i < |all|
    ensures DaysOn(all[i], first, 7 * weeks) == SharedDays(all[i], first, 7 * weeks)
    ensures forall w, k :: 0 <= w < weeks && 0 <= k < 7 ==>
              var d := first + 7 * w + k;
              PlainRows(now, all, first, weeks)[w][k].events == LinesOn(all[..i], d)
              + (if OnDay(all[i], d) then [Line(all[i], Midnight(d))] else []) + LinesOn(all[i + 1..], d)
  {
    DaysOnAreShared(all[i], first, 7 * weeks);
    hide LinesOn, OnDay, PlainRows;
    forall w, k | 0 <= w < weeks && 0 <= k < 7
      ensures var d := first + 7 * w + k;
              PlainRows(now, all, first, weeks)[w][k].events == LinesOn(all[..i], d)
              + (if OnDay(all[i], d) then [Line(all[i], Midnight(d))] else []) + LinesOn(all[i + 1..], d)
    {
      CellLines(now, all, first, weeks, w, k);
      LinesAround(all, i, first + 7 * w + k);
    }
  }

  // ---------- the agenda ----------

  const AGENDA_LIMIT: nat := 30

  function AgendaFrom(now: Time, before: nat): Time {
    Midnight(now.day - SinceMonday(now.day) - 7 * before)
  }

  /** Exclusive; at least one week ahead. */
  function AgendaUntil(now: Time, ahead: nat): Time {
    Midnight(now.day + 7 * (if ahead < 1 then 1 else ahead) + 1)
  }

  /** The agenda goes by where an event starts, not by the days it occupies. */
  predicate InAgenda(now: Time, before: nat, ahead: nat, e: Event) {
    !Before(e.start, AgendaFrom(now, before)) && Before(e.start, AgendaUntil(now, ahead))
  }

  /** The window runs from the Monday of this week, so many weeks back, to the end of the last day ahead. */
  lemma AgendaWindowIs(now: Time, before: nat, ahead: nat, e: Event, monday: int)
    requires Weekday(monday) == 1 && monday <= now.day < monday + 7
    ensures InAgenda(now, before, ahead, e) <==>
            monday - 7 * before <= e.start.day <= now.day + 7 * (if ahead == 0 then 1 else ahead)
  {
    SinceMondayIsRemainder(now.day);
  }

  function Selected(now: Time, before: nat, ahead: nat, all: seq<Event>): seq<Event> {
    if all == [] then []
    else
      var last := all[|all| - 1];
      Selected(now, before, ahead, all[..|all| - 1]) + if InAgenda(now, before, ahead, last) then [last] else []
  }

  ghost predicate Chronological(evs: seq<Event>) {
    forall i, j :: 0 <= i < j < |evs| ==> !Before(evs[j].start, evs[i].start)
  }

  /** One of the orders that sorting by start may give: equal starts may come in any order. */
  ghost predicate SortedFrom(sorted: seq<Event>, evs: seq<Event>) {
    multiset(sorted) == multiset(evs) && Chronological(sorted)
  }

  function Inserted(e: Event, evs: seq<Event>): seq<Event> {
    if evs == [] || Before(e.start, evs[0].start) then [e] + evs else [evs[0]] + Inserted(e, evs[1..])
  }

  lemma {:induction false} InsertedIsSorted(e: Event, evs: seq<Event>)
    requires Chronological(evs)
    ensures Chronological(Inserted(e, evs)) && multiset(Inserted(e, evs)) == multiset(evs) + multiset{e}
  {
    if evs != [] && !Before(e.start, evs[0].start) {
      var rest := Inserted(e, evs[1..]);
      InsertedIsSorted(e, evs[1..]);
      assert evs == [evs[0]] + evs[1..];
      forall i | 0 <= i < |rest| ensures !Before(rest[i].start, evs[0].start) {
        assert rest[i] in multiset(rest);
        assert rest[i] == e || rest[i] in evs[1..];
      }
    } else {
      assert Inserted(e, evs) == [e] + evs;
    }
  }

  method SortByStart(evs: seq<Event>) returns (sorted: seq<Event>)
    ensures SortedFrom(sorted, evs)
  {
    sorted := [];
    for i := 0 to |evs|
      invariant SortedFrom(sorted, evs[..i])
    {
      InsertedIsSorted(evs[i], sorted);
      sorted := Inserted(evs[i], sorted);
      assert evs[..i + 1] == evs[..i] + [evs[i]];
    }
    assert evs[..|evs|] == evs;
  }

  ghost predicate Shows(shown: seq<Event>, evs: seq<Event>) {
    exists sorted :: SortedFrom(sorted, evs) && shown == sorted[..Min(AGENDA_LIMIT, |sorted|)]
  }

  method BuildAgenda(now: Time, before: nat, ahead: nat, all: seq<Event>) returns (shown: seq<Event>)
    ensures Shows(shown, Selected(now, before, ahead, all))
  {
    var evs := [];
    for i := 0 to |all|
      invariant evs == Selected(now, before, ahead, all[..i])
    {
      assert all[..i + 1][..i] == all[..i];
      if Before(all[i].start, AgendaFrom(now, before)) || !Before(all[i].start, AgendaUntil(now, ahead)) {
        continue;
      }
      evs := evs + [all[i]];
    }
    assert all[..|all|] == all;
    evs := SortByStart(evs);
    shown := evs[..Min(AGENDA_LIMIT, |evs|)];
  }

  lemma {:induction false} SelectedAre(now: Time, before: nat, ahead: nat, all: seq<Event>)
    ensures forall e :: multiset(Selected(now, before, ahead, all))[e] ==
                        if InAgenda(now, before, ahead, e) then multiset(all)[e] else 0
  {
    if all != [] {
      SelectedAre(now, before, ahead, all[..|all| - 1]);
      assert all == all[..|all| - 1] + [all[|all| - 1]];
    }
  }

  /** The agenda lists up to thirty of the events that start in its window, and no left-out one starts earlier. */
  lemma AgendaShowsTheEarliest(now: Time, before: nat, ahead: nat, all: seq<Event>, shown: seq<Event>)
    requires Shows(shown, Selected(now, before, ahead, all))
    ensures Chronological(shown) && |shown| == Min(30, |Selected(now, before, ahead, all)|)
    ensures forall e :: multiset(Selected(now, before, ahead, all))[e] ==
                        if InAgenda(now, before, ahead, e) then multiset(all)[e] else 0
    ensures forall e :: e in shown ==> e in all && InAgenda(now, before, ahead, e)
    ensures forall e, s :: multiset(all)[e] > multiset(shown)[e] && InAgenda(now, before, ahead, e) && s in shown ==>
              !Before(e.start, s.start)
  {
    hide Selected, InAgenda, Before;
    var evs := Selected(now, before, ahead, all);
    SelectedAre(now, before, ahead, all);
    var sorted :| SortedFrom(sorted, evs) && shown == sorted[..Min(AGENDA_LIMIT, |sorted|)];
    assert |sorted| == |multiset(sorted)| == |evs|;
    var rest := sorted[|shown|..];
    assert sorted == shown + rest;
    ChronologicalPrefix(shown, rest);
    hide Chronological;
    forall e | e in shown ensures e in all && InAgenda(now, before, ahead, e) {
      assert multiset(sorted)[e] > 0;
    }
    forall e, s | multiset(all)[e] > multiset(shown)[e] && InAgenda(now, before, ahead, e) && s in shown
      ensures !Before(e.start, s.start)
    {
      assert multiset(sorted)[e] == multiset(all)[e];
      assert multiset(rest)[e] > 0;
      LaterPart(shown, rest, e, s);
    }
  }

  lemma ChronologicalPrefix(shown: seq<Event>, rest: seq<Event>)
    requires Chronological(shown + rest)
    ensures Chronological(shown)
  {
    forall i, j | 0 <= i < j < |shown| ensures !Before(shown[j].start, shown[i].start) {
      assert (shown + rest)[i] == shown[i] && (shown + rest)[j] == shown[j];
    }
  }

  lemma LaterPart(shown: seq<Event>, rest: seq<Event>, e: Event, s: Event)
    requires Chronological(shown + rest) && e in rest && s in shown
    ensures !Before(e.start, s.start)
  {
    var i :| 0 <= i < |rest| && rest[i] == e;
    var j :| 0 <= j < |shown| && shown[j] == s;
    assert (shown + rest)[|shown| + i] == e && (shown + rest)[j] == s;
  }

  // ---------- the fetch window ----------

  datatype Mode = Agenda | Month | Week | AbsWeeks(startDay: Option<int>, ahead: nat)

  /** The expansion window computed at the top of Fetch. */
  function Window(now: Time, mode: Mode): (Time, Time) {
    var from, to := AddDays(now, -70), AddDays(now, 70);
    if !mode.AbsWeeks? || mode.startDay.None? then (from, to)
    else
      var s := mode.startDay.value;
      var week := s - SinceMonday(s);
      var early, late := Midnight(week - 7), Midnight(week + AbsWeekCount(mode.ahead) * 7 + 7);
      (if Before(early, from) then early else from, if Before(to, late) then late else to)
  }

  /** The whole day, from midnight to midnight, lies in the window. */
  predicate Inside(window: (Time, Time), d: int) {
    !Before(Midnight(d), window.0) && !Before(window.1, Midnight(d + 1))
  }

  ghost predicate Fetched(window: (Time, Time), first: int, n: int) {
    forall d :: first <= d < first + n ==> Inside(window, d)
  }

  lemma FetchedByEnds(window: (Time, Time), first: int, n: int)
    requires n > 0
    ensures Fetched(window, first, n) <==> Inside(window, first) && Inside(window, first + n - 1)
  {
    if Fetched(window, first, n) {
      assert Inside(window, first + n - 1);
    }
  }

  /** In month mode every day of the grid lies inside the fetch window. */
  lemma MonthGridIsFetched(now: Time, all: seq<Event>)
    ensures Fetched(Window(now, Month), MonthStart(now), 7 * |KeptRows(now, all, MonthStart(now), 6)|)
  {
    NowIsInItsMonth(now);
    MonthRows(now, all);
    FourToSixWeeks(now);
    hide KeptRows, Civil;
    FetchedByEnds(Window(now, Month), MonthStart(now), 7 * |KeptRows(now, all, MonthStart(now), 6)|);
  }

  /** A pinned grid lies inside the window for any now, start date and week count. */
  lemma PinnedWeeksAreFetched(now: Time, start: int, ahead: nat)
    ensures Fetched(Window(now, AbsWeeks(Some(start), ahead)), AbsStart(now, Some(start)), 7 * AbsWeekCount(ahead))
  {
    FetchedByEnds(Window(now, AbsWeeks(Some(start), ahead)), AbsStart(now, Some(start)), 7 * AbsWeekCount(ahead));
  }

  /** Every other window is the 70 days either way from now. */
  lemma PlainWindowIs(now: Time, mode: Mode, d: int)
    requires mode.AbsWeeks? ==> mode.startDay.None?
    ensures Inside(Window(now, mode), d) <==>
            (if now.ns == 0 then now.day - 70 else now.day - 69) <= d <= now.day + 69
  {
  }

  /** A pinned window reaches a week beyond the grid on either side and 70 days around now, and no further. */
  lemma PinnedWindowIs(now: Time, start: int, ahead: nat, monday: int, d: int)
    requires Weekday(monday) == 1 && monday <= start < monday + 7
    ensures Inside(Window(now, AbsWeeks(Some(start), ahead)), d) <==>
            && (d >= monday - 7 || !Before(Midnight(d), AddDays(now, -70)))
            && (d < monday + 7 * (if ahead == 0 then 1 else if ahead >= 12 then 12 else ahead) + 7
                || !Before(AddDays(now, 70), Midnight(d + 1)))
  {
    SinceMondayIsRemainder(start);
  }

  /** Without a start date the grid lies inside the window exactly up to ten weeks. */
  lemma UnpinnedWeeksAreFetchedIff(now: Time, ahead: nat)
    ensures Fetched(Window(now, AbsWeeks(None, ahead)), AbsStart(now, None), 7 * AbsWeekCount(ahead))
            <==> AbsWeekCount(ahead) <= 10
  {
    FetchedByEnds(Window(now, AbsWeeks(None, ahead)), AbsStart(now, None), 7 * AbsWeekCount(ahead));
  }

  /**
   * The relative week grid does not widen the window: it lies inside it exactly when it reaches back
   * no further than 70 days before the present moment and ends no later than 70 days after today.
   */
  lemma WeekGridIsFetchedIff(now: Time, before: nat, ahead: nat)
    ensures Fetched(Window(now, Week), WeekGridStart(now, before), 7 * (before + ahead + 1))
            <==> (7 * before + SinceMonday(now.day) + (if now == DateOf(now) then 0 else 1) <= 70
                  && 7 * (ahead + 1) - SinceMonday(now.day) <= 70)
  {
    assert SinceMonday(now.day - 7 * before) == SinceMonday(now.day);
    FetchedByEnds(Window(now, Week), WeekGridStart(now, before), 7 * (before + ahead + 1));
  }

  /** The agenda's days lie in the window exactly while it spans no more than 70 days either way. */
  lemma AgendaIsFetchedIff(now: Time, before: nat, ahead: nat)
    ensures var from, until := AgendaFrom(now, before).day, AgendaUntil(now, ahead).day;
            Fetched(Window(now, Agenda), from, until - from)
            <==> (7 * before + SinceMonday(now.day) + (if now == DateOf(now) then 0 else 1) <= 70
                  && (if ahead < 1 then 1 else ahead) <= 9)
  {
    FetchedByEnds(Window(now, Agenda), AgendaFrom(now, before).day, AgendaUntil(now, ahead).day - AgendaFrom(now, before).day);
  }
}
