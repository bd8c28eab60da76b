/**
 * `buildMonthLabels`: which grid columns get a month label.  The HTML it
 * builds is left out; what remains is the list of (column, month) pairs.
 */
module MonthLabels {
  import opened Wrappers
  import opened Calendar
  import opened Grid

  /** The label `(month) + "月"` drawn over column `col`; `month` is 1..12 (`getMonth() + 1`). */
  datatype MonthLabel = MonthLabel(col: int, month: int)

  /** `getMonth() + 1`: the month whose span of the year holds `d`. */
  function MonthOf(d: Day): (m: int)
    ensures 1 <= m <= 12
  {
    var y := YearOf(d);
    YearStartStep(y);
    MonthFrom(y, d - YearStart(y), 1)
  }

  /** `MonthOf` is the month of the calendar date of `d`. */
  lemma MonthOfIsCivilMonth(d: Day)
    ensures MonthOf(d) == CivilFromDays(d).month
  {
  }

  predicate InColumnAndYear(cell: GridCell, c: int) {
    cell.col == c && cell.inYear
  }

  /** `Math.min` over the dates of the in-year cells of column `c`, or `None` when there are none. */
  function EarliestInColumn(cells: seq<GridCell>, c: int): (r: Option<Day>)
    ensures r.None? <==> forall i :: 0 <= i < |cells| ==> !InColumnAndYear(cells[i], c)
    ensures r.Some? ==> exists i :: 0 <= i < |cells| && InColumnAndYear(cells[i], c) && cells[i].date == r.value
    ensures r.Some? ==> forall i :: 0 <= i < |cells| && InColumnAndYear(cells[i], c) ==> r.value <= cells[i].date
  {
    if cells == [] then None
    else
      var rest := EarliestInColumn(cells[..|cells| - 1], c);
      var last := cells[|cells| - 1];
      if !InColumnAndYear(last, c) then rest
      else if rest.Some? && rest.value <= last.date then rest
      else Some(last.date)
  }

  /**
   * The month a column is labelled with if it starts a new month: in a year
   * view that of its earliest in-year date (none if it has no in-year date),
   * otherwise that of its first (Monday) cell.
   */
  function ColumnMonth(grid: seq<GridCell>, isYearView: bool, c: int): (month: Option<int>)
    requires |grid| == GridSize && 0 <= c < Weeks
    ensures month.Some? ==> 1 <= month.value <= 12
  {
    if isYearView then
      match EarliestInColumn(grid, c)
      case None => None
      case Some(d) => Some(MonthOf(d))
    else Some(MonthOf(grid[c * DaysPerWeek].date))
  }

  /** Every month present is one of 1..12. */
  predicate ValidMonths(months: seq<Option<int>>) {
    forall c :: 0 <= c < |months| && months[c].Some? ==> 1 <= months[c].value <= 12
  }

  /** The month of every column, in column order. */
  function ColumnMonths(grid: seq<GridCell>, isYearView: bool): (months: seq<Option<int>>)
    requires |grid| == GridSize
    ensures |months| == Weeks && ValidMonths(months)
  {
    seq(Weeks, c requires 0 <= c < Weeks => ColumnMonth(grid, isYearView, c))
  }

  /** The month of the last column before `c` that has one (`lastMonth`; `None` stands for -1). */
  function LastMonthBefore(months: seq<Option<int>>, c: int): Option<int>
    requires 0 <= c <= |months|
  {
    if c == 0 then None
    else match months[c - 1]
      case Some(m) => Some(m)
      case None => LastMonthBefore(months, c - 1)
  }

  /** Column `c` is labelled: it has a month, and it is column 0 or its month differs from the last one seen. */
  predicate StartsLabel(months: seq<Option<int>>, c: int)
    requires 0 <= c < |months|
  {
    months[c].Some? && (c == 0 || LastMonthBefore(months, c) != months[c])
  }

  predicate HasLabelAt(labels: seq<MonthLabel>, c: int) {
    exists k :: 0 <= k < |labels| && labels[k].col == c
  }

  lemma HasLabelAppend(labels: seq<MonthLabel>, l: MonthLabel, c: int)
    ensures HasLabelAt(labels + [l], c) <==> HasLabelAt(labels, c) || l.col == c
  {
    var ls := labels + [l];
    if HasLabelAt(ls, c) {
      var k :| 0 <= k < |ls| && ls[k].col == c;
      if k < |labels| {
        assert labels[k] == ls[k];
      }
    }
    if HasLabelAt(labels, c) {
      var k :| 0 <= k < |labels| && labels[k].col == c;
      assert ls[k] == labels[k];
    }
    assert ls[|labels|] == l;
  }

  /** `lastMonth` as the loop keeps it: the last month seen, or -1 before any. */
  function LastMonthCode(months: seq<Option<int>>, c: int): int
    requires 0 <= c <= |months|
  {
    match LastMonthBefore(months, c)
    case None => -1
    case Some(m) => m
  }

  /**
   * What `buildMonthLabels` has built once it has looked at the columns before
   * `col`: labels in column order carrying their column's month, no two
   * neighbours with the same month, exactly the month-starting columns labelled.
   */
  predicate LabelsUpTo(months: seq<Option<int>>, labels: seq<MonthLabel>, col: int, lastMonth: int)
    requires 0 <= col <= |months|
  {
    && (forall k :: 0 <= k < |labels| ==> 0 <= labels[k].col < col && months[labels[k].col] == Some(labels[k].month))
    && (forall k :: 0 < k < |labels| ==> labels[k - 1].col < labels[k].col && labels[k - 1].month != labels[k].month)
    && (forall c :: 0 <= c < col ==> (StartsLabel(months, c) <==> HasLabelAt(labels, c)))
    && lastMonth == LastMonthCode(months, col)
    && (labels != [] ==> lastMonth == labels[|labels| - 1].month)
  }

  /** A column that starts a month gets a label and keeps `LabelsUpTo`. */
  lemma LabelStart(months: seq<Option<int>>, labels: seq<MonthLabel>, col: int, lastMonth: int)
    requires ValidMonths(months)
    requires 0 <= col < |months| && LabelsUpTo(months, labels, col, lastMonth)
    requires months[col].Some? && (col == 0 || months[col].value != lastMonth)
    ensures LabelsUpTo(months, labels + [MonthLabel(col, months[col].value)], col + 1, months[col].value)
  {
    var l := MonthLabel(col, months[col].value);
    forall c | 0 <= c <= col
      ensures HasLabelAt(labels + [l], c) <==> HasLabelAt(labels, c) || c == col
    {
      HasLabelAppend(labels, l, c);
    }
  }

  /** A column without a month, or with the month before it, gets no label and keeps `LabelsUpTo`. */
  lemma LabelSkip(months: seq<Option<int>>, labels: seq<MonthLabel>, col: int, lastMonth: int)
    requires ValidMonths(months)
    requires 0 <= col < |months| && LabelsUpTo(months, labels, col, lastMonth)
    requires !(months[col].Some? && (col == 0 || months[col].value != lastMonth))
    ensures LabelsUpTo(months, labels, col + 1, lastMonth)
  {
    assert !HasLabelAt(labels, col);
  }

  /**
   * The month of column `col` as `buildMonthLabels` works it out: in a year
   * view it filters the in-year cells of the column out of the whole grid and
   * takes the month of the earliest; otherwise the month of the column's first cell.
   */
  method FindColumnMonth(grid: seq<GridCell>, isYearView: bool, col: int) returns (month: Option<int>)
    requires |grid| == GridSize && 0 <= col < Weeks
    ensures month == ColumnMonths(grid, isYearView)[col]
    ensures month.Some? ==> 1 <= month.value <= 12
  {
    if isYearView {
      var found, earliest := false, 0;
      for j := 0 to |grid|
        invariant (if found then Some(earliest) else None) == EarliestInColumn(grid[..j], col)
      {
        assert grid[..j + 1][..j] == grid[..j];
        if grid[j].col == col && grid[j].inYear && (!found || grid[j].date < earliest) {
          found, earliest := true, grid[j].date;
        }
      }
      assert grid[..|grid|] == grid;
      month := if found then Some(MonthOf(earliest)) else None;
    } else {
      month := Some(MonthOf(grid[col * DaysPerWeek].date));
    }
  }

  /**
   * The labels of the whole grid: in column order, each carrying its column's
   * month, no two neighbours with the same month, and a column labelled
   * exactly when it starts a month.
   */
  predicate LabelsFor(months: seq<Option<int>>, labels: seq<MonthLabel>) {
    && (forall k :: 0 <= k < |labels| ==> 0 <= labels[k].col < |months| && months[labels[k].col] == Some(labels[k].month))
    && (forall k :: 0 < k < |labels| ==> labels[k - 1].col < labels[k].col && labels[k - 1].month != labels[k].month)
    && (forall c :: 0 <= c < |months| ==> (StartsLabel(months, c) <==> HasLabelAt(labels, c)))
  }

  /** Once every column has been looked at, the labels are those of the whole grid. */
  lemma LabelsDone(months: seq<Option<int>>, labels: seq<MonthLabel>, lastMonth: int)
    requires LabelsUpTo(months, labels, |months|, lastMonth)
    ensures LabelsFor(months, labels)
  {
  }

  /** `buildMonthLabels`: the labels of the grid's columns. */
  method BuildMonthLabels(grid: seq<GridCell>, isYearView: bool) returns (labels: seq<MonthLabel>)
    requires |grid| == GridSize
    ensures LabelsFor(ColumnMonths(grid, isYearView), labels)
  {
    ghost var months := ColumnMonths(grid, isYearView);
    labels := [];
    var lastMonth := -1;
    for col := 0 to Weeks
      invariant LabelsUpTo(months, labels, col, lastMonth)
    {
      var month := FindColumnMonth(grid, isYearView, col);
      assert month == months[col];
      if month.Some? && (col == 0 || month.value != lastMonth) {
        LabelStart(months, labels, col, lastMonth);
        labels := labels + [MonthLabel(col, month.value)];
        lastMonth := month.value;
      } else {
        LabelSkip(months, labels, col, lastMonth);
      }
    }
    LabelsDone(months, labels, lastMonth);
  }
}
