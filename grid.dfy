/**
  The month view of the `/` handler: six weeks of seven cells, blank before
  the first of the month and after its last day, one cell per day in between
  carrying the day's key and the names signed up for it.
 */
module MonthGrid {
  import opened Wrappers
  import opened Calendar
  import opened DateKey
  import opened NameTable

  /** One cell of the grid; day 0 with an empty key is a blank. */
  datatype Cell = Cell(day: int, count: int, names: seq<string>, date: string)

  /** The data handed to the page template. */
  datatype MonthView = MonthView(
    year: int, month: int, days: seq<Cell>,
    prev: YearMonth, next: YearMonth)

  const CELLS := 42

  const BLANK := Cell(0, 0, [], "")

  /** Cell of day d of month m of year y, showing the names stored under the day's key. */
  ghost predicate IsDayCell(c: Cell, rows: seq<Row>, y: int, m: int, d: int)
    requires 1 <= m <= 12
  {
    && c.day == d
    && c.date == Format(Date(y, m, d))
    && multiset(c.names) == NamesOn(rows, c.date)
    && c.count == |c.names|
  }

  /**
    The 42 cells of month m of year y: as many blanks as the weekday of the
    first, the days of the month in order, then blanks to the end.
   */
  ghost predicate IsMonthGrid(days: seq<Cell>, rows: seq<Row>, y: int, m: int)
    requires 1 <= m <= 12
  {
    var lead, n := Weekday(y, m, 1), DaysInMonth(y, m);
    && |days| == CELLS
    && (forall k :: 0 <= k < lead ==> days[k] == BLANK)
    && (forall k :: lead <= k < lead + n ==> IsDayCell(days[k], rows, y, m, k - lead + 1))
    && (forall k :: lead + n <= k < CELLS ==> days[k] == BLANK)
  }

  /**
    The locked section of the `/` handler: one cell per day 1..n of the
    month, each with its key and the names the table holds for it.
   */
  method DayCells(table: Table, first: Date, daysInMonth: int) returns (cells: seq<Cell>)
    requires 1 <= first.month <= 12 && first.day == 1
    requires daysInMonth == DaysInMonth(first.year, first.month)
    ensures |cells| == daysInMonth
    ensures forall k :: 0 <= k < daysInMonth ==> IsDayCell(cells[k], table.rows, first.year, first.month, k + 1)
  {
    cells := [];
    var d := 1;
    while d <= daysInMonth
      invariant 1 <= d <= daysInMonth + 1
      invariant |cells| == d - 1
      invariant forall k :: 0 <= k < |cells| ==> IsDayCell(cells[k], table.rows, first.year, first.month, k + 1)
    {
      var date := Format(AddDate(first, 0, 0, d - 1));
      AddDaysWithinMonth(first.year, first.month, d);
      var names := table.Names(date);
      cells := cells + [Cell(d, |names|, names, date)];
      d := d + 1;
    }
  }

  /** A grid assembled from the leading blanks, the day cells and trailing blanks is the month's grid. */
  lemma Layout(days: seq<Cell>, leading: seq<Cell>, cells: seq<Cell>, rows: seq<Row>, y: int, m: int)
    requires 1 <= m <= 12
    requires |leading| == Weekday(y, m, 1) && |cells| == DaysInMonth(y, m) && |days| == CELLS
    requires days[..|leading| + |cells|] == leading + cells
    requires forall k :: 0 <= k < |leading| ==> leading[k] == BLANK
    requires forall k :: 0 <= k < |cells| ==> IsDayCell(cells[k], rows, y, m, k + 1)
    requires forall k :: |leading| + |cells| <= k < |days| ==> days[k] == BLANK
    ensures IsMonthGrid(days, rows, y, m)
  {
    forall k | 0 <= k < |leading| + |cells|
      ensures days[k] == (leading + cells)[k]
    {
      assert days[k] == days[..|leading| + |cells|][k];
    }
  }

  /**
    The cell-building part of the `/` handler: leading blanks up to the
    weekday of the first, the locked day loop, then blanks up to 42 cells.
   */
  method Grid(table: Table, year: int, month: int) returns (days: seq<Cell>)
    requires 1 <= month <= 12
    ensures IsMonthGrid(days, table.rows, year, month)
  {
    var first := Date(year, month, 1);
    var last := AddDate(first, 0, 1, -1);
    var lead := Weekday(year, month, 1);
    var daysInMonth := last.day;
    LastOfMonth(year, month);

    days := [];
    while |days| < lead
      invariant |days| <= lead
      invariant forall k :: 0 <= k < |days| ==> days[k] == BLANK
    {
      days := days + [BLANK];
    }
    ghost var leading := days;

    var cells := DayCells(table, first, daysInMonth);
    days := days + cells;

    while |days| < CELLS
      invariant lead + daysInMonth <= |days| <= CELLS
      invariant days[..lead + daysInMonth] == leading + cells
      invariant forall k :: lead + daysInMonth <= k < |days| ==> days[k] == BLANK
    {
      days := days + [BLANK];
    }
    Layout(days, leading, cells, table.rows, year, month);
  }

  /**
    The `/` handler without its HTTP and template plumbing: choose the month,
    build its grid and compute the navigation targets.
   */
  method BuildMonthView(table: Table, today: Date, monthArg: Option<int>, yearArg: Option<int>)
    returns (v: MonthView)
    requires 1 <= today.month <= 12
    ensures YearMonth(v.year, v.month) == SelectMonth(monthArg, yearArg, today)
    ensures 1 <= v.month <= 12 && IsMonthGrid(v.days, table.rows, v.year, v.month)
    ensures v.prev == PrevMonth(v.year, v.month) && v.next == NextMonth(v.year, v.month)
  {
    var shown := SelectMonth(monthArg, yearArg, today);
    var days := Grid(table, shown.year, shown.month);
    v := MonthView(shown.year, shown.month, days,
                   PrevMonth(shown.year, shown.month), NextMonth(shown.year, shown.month));
  }
}
