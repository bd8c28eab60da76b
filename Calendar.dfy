/**
 * The proleptic Gregorian calendar over whole day numbers.
 *
 * The tracker works on JavaScript `Date` values that it always snaps to local
 * midnight, so a date is modelled by the number of days since 1970-01-01
 * (day 0, a Thursday).  `Civil` is the (year, month 1..12, day 1..31) view that
 * `getFullYear`, `getMonth() + 1` and `getDate` give of a date.
 */
module Calendar {

  type Day = int

  datatype Civil = Civil(year: int, month: int, day: int)

  predicate IsLeap(y: int) {
    y % 4 == 0 && (y % 100 != 0 || y % 400 == 0)
  }

  function DaysInYear(y: int): int {
    if IsLeap(y) then 366 else 365
  }

  function DaysInMonth(y: int, m: int): int
    requires 1 <= m <= 12
  {
    if m == 2 then (if IsLeap(y) then 29 else 28)
    else if m == 4 || m == 6 || m == 9 || m == 11 then 30
    else 31
  }

  /** Days of year `y` that lie before the first of month `m`; `m == 13` gives the year length. */
  function DaysBeforeMonth(y: int, m: int): (r: int)
    requires 1 <= m <= 13
    ensures m == 13 ==> r == DaysInYear(y)
  {
    [0, 31, 59, 90, 120, 151, 181, 212, 243, 273, 304, 334, 365][m - 1]
    + (if m > 2 && IsLeap(y) then 1 else 0)
  }

  predicate ValidCivil(c: Civil) {
    1 <= c.month <= 12 && 1 <= c.day <= DaysInMonth(c.year, c.month)
  }

  /** The day number of 1 January of year `y` (719162 days separate 0001-01-01 from 1970-01-01). */
  function YearStart(y: int): Day {
    365 * (y - 1) + (y - 1) / 4 - (y - 1) / 100 + (y - 1) / 400 - 719162
  }

  /** Consecutive months follow each other without gap or overlap. */
  lemma DaysBeforeNextMonth(y: int, m: int)
    requires 1 <= m <= 12
    ensures DaysBeforeMonth(y, m + 1) == DaysBeforeMonth(y, m) + DaysInMonth(y, m)
  {
  }

  /** How each of the three leap-year counts in `YearStart` moves from one year to the next. */
  lemma LeapCountsStep(x: int)
    ensures (x + 1) / 4 == x / 4 + (if (x + 1) % 4 == 0 then 1 else 0)
    ensures (x + 1) / 100 == x / 100 + (if (x + 1) % 100 == 0 then 1 else 0)
    ensures (x + 1) / 400 == x / 400 + (if (x + 1) % 400 == 0 then 1 else 0)
    ensures (x + 1) % 100 == 0 ==> (x + 1) % 4 == 0
    ensures (x + 1) % 400 == 0 ==> (x + 1) % 100 == 0
  {
  }

  /** One calendar year after 1 January of `y` comes 1 January of `y + 1`. */
  lemma YearStartStep(y: int)
    ensures YearStart(y + 1) == YearStart(y) + DaysInYear(y)
  {
    LeapCountsStep(y - 1);
  }

  lemma {:induction false} YearStartMono(a: int, b: int)
    requires a <= b
    ensures 365 * (b - a) <= YearStart(b) - YearStart(a) <= 366 * (b - a)
    decreases b - a
  {
    if a < b {
      YearStartMono(a, b - 1);
      YearStartStep(b - 1);
    }
  }

  /** The year holding day `n`, found by walking up from a year that starts on or before `n`. */
  function YearUp(n: Day, y: int): (r: int)
    requires YearStart(y) <= n
    ensures y <= r && YearStart(r) <= n < YearStart(r + 1)
    decreases n - YearStart(y)
  {
    YearStartStep(y);
    if n < YearStart(y + 1) then y else YearUp(n, y + 1)
  }

  /** The year holding day `n`, found by walking down from a year that ends after `n`. */
  function YearDown(n: Day, y: int): (r: int)
    requires n < YearStart(y + 1)
    ensures r <= y && YearStart(r) <= n < YearStart(r + 1)
    decreases YearStart(y + 1) - n
  {
    YearStartStep(y);
    if YearStart(y) <= n then y else YearDown(n, y - 1)
  }

  /** `getFullYear`: the one year whose span holds day `n`. */
  function YearOf(n: Day): (r: int)
    ensures YearStart(r) <= n < YearStart(r + 1)
  {
    if YearStart(1970) <= n then YearUp(n, 1970) else YearDown(n, 1969)
  }

  lemma YearOfUnique(n: Day, y: int)
    requires YearStart(y) <= n < YearStart(y + 1)
    ensures YearOf(n) == y
  {
    var r := YearOf(n);
    if r < y {
      YearStartMono(r + 1, y);
    } else if r > y {
      YearStartMono(y + 1, r);
    }
  }

  /** `getFullYear` never decreases as the days go on. */
  lemma YearOfMono(m: Day, n: Day)
    requires m <= n
    ensures YearOf(m) <= YearOf(n)
  {
    if YearOf(m) > YearOf(n) {
      YearStartMono(YearOf(n) + 1, YearOf(m));
    }
  }

  /** The month holding day-of-year `doy`, searching upward from month `m`. */
  function MonthFrom(y: int, doy: int, m: int): (r: int)
    requires 1 <= m <= 12 && DaysBeforeMonth(y, m) <= doy < DaysInYear(y)
    ensures m <= r <= 12 && DaysBeforeMonth(y, r) <= doy < DaysBeforeMonth(y, r + 1)
    decreases 12 - m
  {
    if doy < DaysBeforeMonth(y, m + 1) then m else MonthFrom(y, doy, m + 1)
  }

  lemma {:induction false} DaysBeforeMonthMono(y: int, a: int, b: int)
    requires 1 <= a <= b <= 13
    ensures DaysBeforeMonth(y, a) + 28 * (b - a) <= DaysBeforeMonth(y, b)
    decreases b - a
  {
    if a < b {
      DaysBeforeMonthMono(y, a, b - 1);
    }
  }

  lemma MonthFromUnique(y: int, doy: int, m: int)
    requires 1 <= m <= 12 && DaysBeforeMonth(y, m) <= doy < DaysBeforeMonth(y, m + 1)
    ensures MonthFrom(y, doy, 1) == m
  {
    var r := MonthFrom(y, doy, 1);
    if r < m {
      DaysBeforeMonthMono(y, r + 1, m);
    } else if r > m {
      DaysBeforeMonthMono(y, m + 1, r);
    }
  }

  /** The day number of a calendar date. */
  function DaysFromCivil(c: Civil): (n: Day)
    requires ValidCivil(c)
    ensures YearStart(c.year) <= n < YearStart(c.year + 1)
  {
    YearStartStep(c.year);
    YearStart(c.year) + DaysBeforeMonth(c.year, c.month) + c.day - 1
  }

  /** The calendar date of day-of-year `doy` (0 for 1 January) of year `y`. */
  function CivilOfDoy(y: int, doy: int): (c: Civil)
    requires 0 <= doy < DaysInYear(y)
    ensures ValidCivil(c) && c.year == y && DaysBeforeMonth(y, c.month) + c.day - 1 == doy
  {
    var m := MonthFrom(y, doy, 1);
    DaysBeforeNextMonth(y, m);
    Civil(y, m, doy - DaysBeforeMonth(y, m) + 1)
  }

  /** The calendar date of day `n` of year `y`. */
  function CivilInYear(n: Day, y: int): (c: Civil)
    requires YearStart(y) <= n < YearStart(y + 1)
    ensures ValidCivil(c) && c.year == y && DaysFromCivil(c) == n
  {
    YearStartStep(y);
    CivilOfDoy(y, n - YearStart(y))
  }

  /** The calendar date of a day number: `getFullYear`, `getMonth() + 1` and `getDate` together. */
  function CivilFromDays(n: Day): (c: Civil)
    ensures ValidCivil(c) && DaysFromCivil(c) == n
  {
    CivilInYear(n, YearOf(n))
  }

  /** Every valid calendar date survives the trip to a day number and back. */
  lemma CivilRoundTrip(c: Civil)
    requires ValidCivil(c)
    ensures CivilFromDays(DaysFromCivil(c)) == c
  {
    var n := DaysFromCivil(c);
    YearOfUnique(n, c.year);
    var doy := DaysBeforeMonth(c.year, c.month) + c.day - 1;
    assert n - YearStart(c.year) == doy;
    assert CivilFromDays(n) == CivilInYear(n, c.year);
    YearStartStep(c.year);
    assert CivilInYear(n, c.year) == CivilOfDoy(c.year, doy);
    DaysBeforeNextMonth(c.year, c.month);
    CivilOfDoyOf(c.year, doy, c.month);
  }

  /** A day of the year that falls in month `m` has the date that month's offset gives. */
  lemma CivilOfDoyOf(y: int, doy: int, m: int)
    requires 1 <= m <= 12 && DaysBeforeMonth(y, m) <= doy < DaysBeforeMonth(y, m + 1)
    ensures 0 <= doy < DaysInYear(y)
    ensures CivilOfDoy(y, doy) == Civil(y, m, doy - DaysBeforeMonth(y, m) + 1)
  {
    DaysBeforeMonthMono(y, 1, m);
    DaysBeforeMonthMono(y, m + 1, 13);
    MonthFromUnique(y, doy, m);
  }

  predicate CivilLess(a: Civil, b: Civil) {
    a.year < b.year
    || (a.year == b.year && (a.month < b.month || (a.month == b.month && a.day < b.day)))
  }

  lemma CivilOrderIsDayOrder(a: Civil, b: Civil)
    requires ValidCivil(a) && ValidCivil(b)
    ensures CivilLess(a, b) <==> DaysFromCivil(a) < DaysFromCivil(b)
  {
    if a.year != b.year {
      if a.year < b.year { EarlierYear(a, b); } else { EarlierYear(b, a); }
    } else if a.month != b.month {
      if a.month < b.month { EarlierMonth(a, b); } else { EarlierMonth(b, a); }
    }
  }

  /** A date in an earlier year comes on an earlier day. */
  lemma EarlierYear(a: Civil, b: Civil)
    requires ValidCivil(a) && ValidCivil(b) && a.year < b.year
    ensures DaysFromCivil(a) < DaysFromCivil(b)
  {
    YearStartMono(a.year + 1, b.year);
  }

  /** A date in an earlier month of the same year comes on an earlier day. */
  lemma EarlierMonth(a: Civil, b: Civil)
    requires ValidCivil(a) && ValidCivil(b) && a.year == b.year && a.month < b.month
    ensures DaysFromCivil(a) < DaysFromCivil(b)
  {
    DaysBeforeNextMonth(a.year, a.month);
    DaysBeforeMonthMono(a.year, a.month + 1, b.month);
  }

  /** Later days have later calendar dates, so date order and day order agree. */
  lemma DayOrderIsCivilOrder(m: Day, n: Day)
    ensures m < n <==> CivilLess(CivilFromDays(m), CivilFromDays(n))
  {
    CivilOrderIsDayOrder(CivilFromDays(m), CivilFromDays(n));
  }

  /** `getDay`: 0 for Sunday through 6 for Saturday; 1970-01-01 was a Thursday. */
  function Weekday(n: Day): (r: int)
    ensures 0 <= r < 7
  {
    (n + 4) % 7
  }

  /**
   * `new Date(y, monthIndex, day)` reads a year argument 0..99 as 1900..1999.
   */
  function ConstructorYear(y: int): (r: int)
    ensures 0 <= y <= 99 ==> r == 1900 + y
    ensures (y < 0 || y > 99) ==> r == y
  {
    if 0 <= y <= 99 then 1900 + y else y
  }
}
