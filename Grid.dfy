/**
 * The heat-map grid: 53 Monday-first week columns of 7 days, anchored either on
 * the current week ("recent") or on the week of 1 January of a chosen year;
 * the days a view counts; and the years the year picker offers.
 */
module Grid {
  import opened Calendar

  const Weeks: int := 53
  const DaysPerWeek: int := 7
  const GridSize: int := Weeks * DaysPerWeek

  /** A heat-map's `viewRange`: `"recent"` or a year number. */
  datatype ViewRange = Recent | Year(year: int)

  /** One entry of `getGridDates`: `{ date, col, row, inYear }`. */
  datatype GridCell = GridCell(date: Day, col: int, row: int, inYear: bool)

  /** `getWeekStart`: the Monday of the week (weeks start on Monday) that holds `d`. */
  function WeekStart(d: Day): (monday: Day)
    ensures Weekday(monday) == 1
    ensures monday <= d <= monday + 6
  {
    d - (Weekday(d) + 6) % 7
  }

  /** The Monday on or before `d` within six days is unique, so `WeekStart` is the only possible answer. */
  lemma WeekStartUnique(d: Day, monday: Day)
    requires Weekday(monday) == 1 && monday <= d <= monday + 6
    ensures monday == WeekStart(d)
  {
  }

  /** Snapping to the week start twice changes nothing, and every day of a week snaps to its Monday. */
  lemma WeekStartOfWeek(monday: Day, k: int)
    requires Weekday(monday) == 1 && 0 <= k < 7
    ensures WeekStart(monday + k) == monday
    ensures WeekStart(WeekStart(monday + k)) == WeekStart(monday + k)
  {
    WeekStartUnique(monday + k, monday);
    WeekStartUnique(monday, monday);
  }

  /** `new Date(range, 0, 1)`: 1 January of the year the view shows. */
  function YearFirstDay(y: int): Day {
    DaysFromCivil(Civil(ConstructorYear(y), 1, 1))
  }

  /** `new Date(range, 11, 31)`: 31 December of the year the view shows. */
  function YearLastDay(y: int): Day {
    DaysFromCivil(Civil(ConstructorYear(y), 12, 31))
  }

  /** The first and last day of a year view's year bound it exactly. */
  lemma YearBounds(y: int)
    ensures YearFirstDay(y) == YearStart(ConstructorYear(y))
    ensures YearLastDay(y) == YearStart(ConstructorYear(y) + 1) - 1
  {
    YearStartStep(ConstructorYear(y));
  }

  /** The date in the first cell (column 0, row 0) of the grid. */
  function GridStart(view: ViewRange, today: Day): Day {
    match view
    case Recent => WeekStart(today) - (Weeks - 1) * DaysPerWeek
    case Year(y) => WeekStart(YearFirstDay(y))
  }

  /** The `inYear` flag of a cell dated `d`. */
  predicate InYear(view: ViewRange, d: Day) {
    match view
    case Recent => true
    case Year(y) => YearFirstDay(y) <= d <= YearLastDay(y)
  }

  /** Cell `i` of the grid, counting down each column and then across. */
  function CellAt(view: ViewRange, today: Day, i: int): GridCell {
    var d := GridStart(view, today) + i;
    GridCell(d, i / DaysPerWeek, i % DaysPerWeek, InYear(view, d))
  }

  /**
   * `getGridDates`: 371 cells in column-major order; the dates run one day apart
   * from `GridStart`.  `today` stands for `new Date()`.
   */
  method GridDates(view: ViewRange, today: Day) returns (dates: seq<GridCell>)
    ensures |dates| == GridSize
    ensures forall i :: 0 <= i < GridSize ==> dates[i] == CellAt(view, today, i)
    ensures forall i :: 0 <= i < GridSize ==> 0 <= dates[i].col < Weeks && 0 <= dates[i].row < DaysPerWeek
    ensures forall i :: 0 < i < GridSize ==> dates[i].date == dates[i - 1].date + 1
  {
    var weekStart: Day;
    var yearStart: Day, yearEnd: Day := 0, 0;
    if view.Recent? {
      weekStart := WeekStart(today);
    } else {
      weekStart := WeekStart(YearFirstDay(view.year));
      yearStart := YearFirstDay(view.year);
      yearEnd := YearLastDay(view.year);
    }
    dates := [];
    var col := 0;
    while col < Weeks
      invariant 0 <= col <= Weeks
      invariant |dates| == col * DaysPerWeek
      invariant forall i :: 0 <= i < |dates| ==> dates[i] == CellAt(view, today, i)
    {
      var weekOffset := if view.Recent? then (Weeks - 1 - col) * DaysPerWeek else 0;
      var row := 0;
      while row < DaysPerWeek
        invariant 0 <= row <= DaysPerWeek
        invariant |dates| == col * DaysPerWeek + row
        invariant forall i :: 0 <= i < |dates| ==> dates[i] == CellAt(view, today, i)
      {
        var d := if view.Recent? then weekStart - weekOffset + row
                 else weekStart + col * DaysPerWeek + row;
        var inYear := view.Recent? || (d >= yearStart && d <= yearEnd);
        CellPosition(col, row);
        assert GridCell(d, col, row, inYear) == CellAt(view, today, |dates|);
        dates := dates + [GridCell(d, col, row, inYear)];
        row := row + 1;
      }
      col := col + 1;
    }
  }

  /** Cell `col * 7 + row` sits in column `col`, row `row`. */
  lemma CellPosition(col: int, row: int)
    requires 0 <= row < DaysPerWeek
    ensures (col * DaysPerWeek + row) / DaysPerWeek == col
    ensures (col * DaysPerWeek + row) % DaysPerWeek == row
  {
  }

  /** Year view: the grid opens on the Monday of the week holding 1 January. */
  lemma YearGridAnchor(y: int, today: Day)
    ensures var start := GridStart(Year(y), today);
      Weekday(start) == 1 && start <= YearFirstDay(y) <= start + 6
  {
  }

  /** Year view: a cell is flagged `inYear` exactly when its date falls in the year shown. */
  lemma InYearIsYearOf(y: int, d: Day)
    ensures InYear(Year(y), d) <==> YearOf(d) == ConstructorYear(y)
  {
    var cy := ConstructorYear(y);
    YearBounds(y);
    if InYear(Year(y), d) {
      YearOfUnique(d, cy);
    }
  }

  /** Recent view: every cell is in range, column 52 opens on this week's Monday and today is in it. */
  lemma RecentGridAnchor(today: Day)
    ensures forall i :: 0 <= i < GridSize ==> CellAt(Recent, today, i).inYear
    ensures CellAt(Recent, today, (Weeks - 1) * DaysPerWeek).date == WeekStart(today)
    ensures var k := (Weeks - 1) * DaysPerWeek + (Weekday(today) + 6) % 7;
      k < GridSize && CellAt(Recent, today, k).date == today && CellAt(Recent, today, k).col == Weeks - 1
  {
  }

  /** The first and last date a view counts (`rangeDates` in `getHeatmapStats`). */
  function RangeFirst(view: ViewRange, today: Day): Day {
    match view
    case Recent => GridStart(view, today)
    case Year(y) => YearFirstDay(y)
  }

  function RangeLast(view: ViewRange, today: Day): Day {
    var gridLast := GridStart(view, today) + GridSize - 1;
    match view
    case Recent => gridLast
    case Year(y) => if YearLastDay(y) < gridLast then YearLastDay(y) else gridLast
  }

  /** A grid cell is in the counted range exactly when its date lies between `RangeFirst` and `RangeLast`. */
  lemma InRangeIsInterval(view: ViewRange, today: Day, i: int)
    requires 0 <= i < GridSize
    ensures var c := CellAt(view, today, i);
      (view.Recent? || c.inYear) <==> RangeFirst(view, today) <= c.date <= RangeLast(view, today)
  {
  }

  /** The number of days a view counts: between 365 and the 371 cells of the grid. */
  function RangeDays(view: ViewRange, today: Day): (n: nat)
    ensures n == RangeLast(view, today) - RangeFirst(view, today) + 1
    ensures 365 <= n <= GridSize
  {
    RangeLength(view, today);
    RangeLast(view, today) - RangeFirst(view, today) + 1
  }

  /**
   * How many days a view counts: 371 for the recent view; for a year view the
   * whole year, except a leap year whose 1 January is a Sunday: its grid opens
   * six days early and ends on 30 December, so 31 December has no cell.
   */
  lemma RangeLength(view: ViewRange, today: Day)
    ensures view.Recent? ==> RangeLast(view, today) - RangeFirst(view, today) + 1 == GridSize
    ensures view.Year? ==>
      var cy := ConstructorYear(view.year);
      RangeLast(view, today) - RangeFirst(view, today) + 1
        == if IsLeap(cy) && Weekday(YearFirstDay(view.year)) == 0 then 365 else DaysInYear(cy)
  {
    if view.Year? {
      YearRangeLength(view.year, today);
    }
  }

  lemma YearRangeLength(y: int, today: Day)
    ensures var cy := ConstructorYear(y);
      RangeLast(Year(y), today) - RangeFirst(Year(y), today) + 1
        == if IsLeap(cy) && Weekday(YearFirstDay(y)) == 0 then 365 else DaysInYear(cy)
  {
    var cy := ConstructorYear(y);
    YearBounds(y);
    YearStartStep(cy);
    var first, len := YearFirstDay(y), DaysInYear(cy);
    var w := Weekday(first);
    var back := (w + 6) % 7;
    DaysBack(w);
    assert len == 366 <==> IsLeap(cy);
    assert GridStart(Year(y), today) == first - back;
    assert YearLastDay(y) == first + len - 1;
    ClippedYear(first, back, len);
  }

  /** `getWeekStart` steps back six days from a Sunday and `w - 1` days from weekday `w` otherwise. */
  lemma DaysBack(w: int)
    requires 0 <= w < 7
    ensures (w + 6) % 7 == if w == 0 then 6 else w - 1
  {
  }

  /** The arithmetic of a year clipped to a grid that opens `back` days before it. */
  lemma ClippedYear(first: int, back: int, len: int)
    requires 0 <= back < 7 && (len == 365 || len == 366)
    ensures var gridLast := first - back + GridSize - 1;
      var last := if first + len - 1 < gridLast then first + len - 1 else gridLast;
      last - first + 1 == if len == 366 && back == 6 then 365 else len
  {
  }

  /** 2012 is such a year: its view ends on 2012-12-30 and leaves 2012-12-31 out. */
  lemma Year2012LosesNewYearsEve(today: Day)
    ensures YearLastDay(2012) == GridStart(Year(2012), today) + GridSize
    ensures RangeLast(Year(2012), today) == DaysFromCivil(Civil(2012, 12, 30))
  {
    assert YearStart(2012) == 15340 && YearStart(2013) == 15706;
    YearBounds(2012);
    assert Weekday(15340) == 0;
    assert GridStart(Year(2012), today) == 15334;
    assert DaysFromCivil(Civil(2012, 12, 30)) == 15704;
  }

  /** `getYearOptions`: the current year and the ten before it, newest first. */
  method YearOptions(currentYear: int) returns (years: seq<int>)
    ensures |years| == 11 && years[0] == currentYear && years[10] == currentYear - 10
    ensures forall i :: 0 < i < |years| ==> years[i] == years[i - 1] - 1
  {
    years := [];
    var y := currentYear;
    while y >= currentYear - 10
      invariant currentYear - 11 <= y <= currentYear
      invariant |years| == currentYear - y
      invariant forall i :: 0 <= i < |years| ==> years[i] == currentYear - i
    {
      years := years + [y];
      y := y - 1;
    }
  }
}
