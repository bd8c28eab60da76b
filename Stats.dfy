/**
 * `getHeatmapStats`: total count, days in range, longest streak of
 * consecutive recorded days and average per day of one heat-map, over the
 * days its current view counts.
 */
module Stats {
  import opened Wrappers
  import opened Calendar
  import opened DateKey
  import opened Grid

  /** `heatmap.data[key] || 0`: the count stored under a key, 0 when there is none. */
  function Count(data: map<string, int>, key: string): int {
    if key in data then data[key] else 0
  }

  /**
   * A day has a record when the count under its key is at least 1.  Here and
   * below `keyOf` is the day-key function: `getHeatmapStats` uses
   * `formatDateKey` (`FormatKey`), and the proofs need only `KeyFacts`.
   */
  predicate Recorded(data: map<string, int>, keyOf: Day -> string, d: Day) {
    Count(data, keyOf(d)) >= 1
  }

  /** The `n` days from `lo` on. */
  function Span(lo: Day, n: nat): seq<Day> {
    seq(n, t => lo + t)
  }

  /** The key of each day, in the same order. */
  function KeysOf(keyOf: Day -> string, ds: seq<Day>): seq<string> {
    seq(|ds|, i requires 0 <= i < |ds| => keyOf(ds[i]))
  }

  /** The keys of the `n` days from `lo` on, in date order. */
  function DayKeys(keyOf: Day -> string, lo: Day, n: nat): seq<string> {
    KeysOf(keyOf, Span(lo, n))
  }

  /** The dates of a list of grid cells. */
  function DatesOf(cells: seq<GridCell>): seq<Day> {
    seq(|cells|, i requires 0 <= i < |cells| => cells[i].date)
  }

  predicate Increasing(ds: seq<Day>) {
    forall i, j :: 0 <= i < j < |ds| ==> ds[i] < ds[j]
  }

  /** Every day lies in the years 1000..9999, whose keys have four-digit years. */
  predicate InEra(ds: seq<Day>) {
    forall i :: 0 <= i < |ds| ==> FourDigitFirst <= ds[i] < FourDigitEnd
  }

  lemma SpanFacts(lo: Day, n: nat)
    ensures Increasing(Span(lo, n))
    ensures forall d :: d in Span(lo, n) <==> lo <= d < lo + n
  {
    forall d | lo <= d < lo + n
      ensures d in Span(lo, n)
    {
      assert Span(lo, n)[d - lo] == d;
    }
  }

  /** The sum of the counts stored under `keys`, a missing key counting 0. */
  function SumCounts(data: map<string, int>, keys: seq<string>): int {
    if keys == [] then 0 else SumCounts(data, keys[..|keys| - 1]) + Count(data, keys[|keys| - 1])
  }

  /** The keys of `keys` whose count is at least 1, in the same order (`keysWithRecord`). */
  function RecordedKeys(data: map<string, int>, keys: seq<string>): seq<string> {
    if keys == [] then []
    else
      var last := keys[|keys| - 1];
      RecordedKeys(data, keys[..|keys| - 1]) + (if Count(data, last) >= 1 then [last] else [])
  }

  /** The recorded days among `ds`, in the same order. */
  function RecordedDays(data: map<string, int>, keyOf: Day -> string, ds: seq<Day>): (r: seq<Day>)
    ensures forall i :: 0 <= i < |r| ==> r[i] in ds && Recorded(data, keyOf, r[i])
    ensures forall d :: d in ds && Recorded(data, keyOf, d) ==> d in r
  {
    if ds == [] then []
    else
      var front, d := ds[..|ds| - 1], ds[|ds| - 1];
      assert forall x :: x in ds ==> x in front || x == d;
      var r := RecordedDays(data, keyOf, front);
      if Recorded(data, keyOf, d) then r + [d] else r
  }

  /** Filtering keeps the order of the days. */
  lemma {:induction false} RecordedDaysIncreasing(data: map<string, int>, keyOf: Day -> string, ds: seq<Day>)
    requires Increasing(ds)
    ensures Increasing(RecordedDays(data, keyOf, ds))
  {
    if ds != [] {
      var front, d := ds[..|ds| - 1], ds[|ds| - 1];
      RecordedDaysIncreasing(data, keyOf, front);
      var r := RecordedDays(data, keyOf, front);
      forall i | 0 <= i < |r|
        ensures r[i] < d
      {
        var k :| 0 <= k < |front| && front[k] == r[i];
        assert ds[k] == r[i];
      }
    }
  }

  /** Filtering the keys of some days keeps exactly the keys of the recorded ones. */
  lemma {:induction false} RecordedKeysOfDays(data: map<string, int>, keyOf: Day -> string, ds: seq<Day>)
    ensures RecordedKeys(data, KeysOf(keyOf, ds)) == KeysOf(keyOf, RecordedDays(data, keyOf, ds))
  {
    if ds != [] {
      var front, d := ds[..|ds| - 1], ds[|ds| - 1];
      RecordedKeysOfDays(data, keyOf, front);
      assert KeysOf(keyOf, ds)[..|ds| - 1] == KeysOf(keyOf, front);
      var r := RecordedDays(data, keyOf, front);
      assert KeysOf(keyOf, r + [d]) == KeysOf(keyOf, r) + [keyOf(d)];
    }
  }

  /** In the four-digit era a day's key differs from the keys of all earlier days. */
  lemma NewKey(keyOf: Day -> string, ds: seq<Day>, i: int)
    requires KeyFacts(keyOf) && Increasing(ds) && InEra(ds) && 0 <= i < |ds|
    ensures KeysOf(keyOf, ds)[i] !in KeysOf(keyOf, ds)[..i]
  {
    forall t | 0 <= t < i
      ensures KeysOf(keyOf, ds)[t] != KeysOf(keyOf, ds)[i]
    {
      assert ParseKey(keyOf(ds[t])) == Some(ds[t]);
    }
  }

  /** The days a view counts have distinct keys, so `daysInRange` counts days. */
  lemma DayKeysDistinct(keyOf: Day -> string, lo: Day, n: nat)
    requires KeyFacts(keyOf) && FourDigitFirst <= lo && lo + n <= FourDigitEnd
    ensures forall i, j :: 0 <= i < j < n ==> DayKeys(keyOf, lo, n)[i] != DayKeys(keyOf, lo, n)[j]
  {
    SpanFacts(lo, n);
    forall i, j | 0 <= i < j < n
      ensures DayKeys(keyOf, lo, n)[i] != DayKeys(keyOf, lo, n)[j]
    {
      NewKey(keyOf, Span(lo, n), j);
      assert DayKeys(keyOf, lo, n)[i] == DayKeys(keyOf, lo, n)[..j][i];
    }
  }

  /** Cell `t` of `cells` is dated `lo + t`. */
  predicate DatesFrom(cells: seq<GridCell>, lo: Day) {
    forall t :: 0 <= t < |cells| ==> cells[t].date == lo + t
  }

  /**
   * `rangeDates`: the whole grid for the recent view, its `inYear` cells
   * otherwise.  Either way they are the days `RangeFirst .. RangeLast`, in order.
   */
  method RangeCells(grid: seq<GridCell>, view: ViewRange, today: Day) returns (cells: seq<GridCell>)
    requires |grid| == GridSize && forall i :: 0 <= i < GridSize ==> grid[i] == CellAt(view, today, i)
    ensures |cells| == RangeDays(view, today)
    ensures DatesFrom(cells, RangeFirst(view, today))
  {
    if view.Recent? {
      cells := grid;
    } else {
      var gs, first, last := GridStart(view, today), YearFirstDay(view.year), YearLastDay(view.year);
      YearGridAnchor(view.year, today);
      YearBounds(view.year);
      YearStartStep(ConstructorYear(view.year));
      cells := [];
      for i := 0 to |grid|
        invariant |cells| == if gs + i <= first then 0 else if gs + i <= last + 1 then gs + i - first else last - first + 1
        invariant DatesFrom(cells, first)
      {
        if grid[i].inYear {
          cells := cells + [grid[i]];
        }
      }
    }
  }

  /** The entries of `s`, each once, in the order first met: what a `Set` built from `s` iterates. */
  function FirstOccurrences(s: seq<string>): (r: seq<string>)
    ensures forall i, j :: 0 <= i < j < |r| ==> r[i] != r[j]
    ensures forall x :: x in r <==> x in s
  {
    if s == [] then []
    else
      var r := FirstOccurrences(s[..|s| - 1]);
      assert forall x :: x in s <==> x in s[..|s| - 1] || x == s[|s| - 1];
      if s[|s| - 1] in r then r else r + [s[|s| - 1]]
  }

  /** A sequence without repeats is its own set of first occurrences. */
  lemma {:induction false} FirstOccurrencesOfDistinct(s: seq<string>)
    requires forall i, j :: 0 <= i < j < |s| ==> s[i] != s[j]
    ensures FirstOccurrences(s) == s
  {
    if s != [] {
      var front := s[..|s| - 1];
      FirstOccurrencesOfDistinct(front);
      assert s[|s| - 1] !in front;
      assert front + [s[|s| - 1]] == s;
    }
  }

  /**
   * `uniqueKeys`: the keys of the cells' dates, each once, in the order first
   * met (a `Set` iterates in insertion order).
   */
  method UniqueKeys(keyOf: Day -> string, cells: seq<GridCell>) returns (keys: seq<string>)
    ensures keys == FirstOccurrences(KeysOf(keyOf, DatesOf(cells)))
  {
    keys := [];
    ghost var all := KeysOf(keyOf, DatesOf(cells));
    for i := 0 to |cells|
      invariant keys == FirstOccurrences(all[..i])
    {
      var key := keyOf(cells[i].date);
      assert all[..i + 1][..i] == all[..i];
      assert all[..i + 1][i] == key;
      if key !in keys {
        keys := keys + [key];
      }
    }
    assert all[..|cells|] == all;
  }

  /** For increasing dates in the four-digit era no key repeats, so the unique keys are exactly their keys. */
  lemma UniqueKeysOfIncreasing(keyOf: Day -> string, ds: seq<Day>)
    requires KeyFacts(keyOf) && Increasing(ds) && InEra(ds)
    ensures FirstOccurrences(KeysOf(keyOf, ds)) == KeysOf(keyOf, ds)
  {
    var ks := KeysOf(keyOf, ds);
    forall i, j | 0 <= i < j < |ks|
      ensures ks[i] != ks[j]
    {
      NewKey(keyOf, ds, j);
      assert ks[i] in ks[..j];
    }
    FirstOccurrencesOfDistinct(ks);
  }

  /** The `forEach` over the unique keys: the total and, in order, the keys with a record. */
  method CountKeys(data: map<string, int>, keys: seq<string>) returns (total: int, recorded: seq<string>)
    ensures total == SumCounts(data, keys)
    ensures recorded == RecordedKeys(data, keys)
  {
    total, recorded := 0, [];
    for i := 0 to |keys|
      invariant total == SumCounts(data, keys[..i])
      invariant recorded == RecordedKeys(data, keys[..i])
    {
      assert keys[..i + 1][..i] == keys[..i];
      var c := Count(data, keys[i]);
      total := total + c;
      if c >= 1 {
        recorded := recorded + [keys[i]];
      }
    }
    assert keys[..|keys|] == keys;
  }

  /** Sorting (`Array.prototype.sort` on strings: lexicographic order). */

  predicate Sorted(keys: seq<string>) {
    forall i :: 0 < i < |keys| ==> !LexLess(keys[i], keys[i - 1])
  }

  predicate StrictlySorted(keys: seq<string>) {
    forall i :: 0 < i < |keys| ==> LexLess(keys[i - 1], keys[i])
  }

  lemma {:induction false} LexAsymmetric(a: string, b: string)
    ensures !(LexLess(a, b) && LexLess(b, a))
    decreases |a|
  {
    if a != [] && b != [] && a[0] == b[0] {
      LexAsymmetric(a[1..], b[1..]);
    }
  }

  function InsertKey(x: string, s: seq<string>): (r: seq<string>)
    ensures |r| == |s| + 1 && multiset(r) == multiset(s) + multiset{x}
    ensures r[0] == x || (s != [] && r[0] == s[0])
  {
    if s == [] || !LexLess(s[0], x) then [x] + s
    else
      assert s == [s[0]] + s[1..];
      [s[0]] + InsertKey(x, s[1..])
  }

  /** `keysWithRecord.sort()`, as an insertion sort. */
  function SortKeys(s: seq<string>): (r: seq<string>)
    ensures multiset(r) == multiset(s)
  {
    if s == [] then []
    else
      assert s == [s[0]] + s[1..];
      InsertKey(s[0], SortKeys(s[1..]))
  }

  lemma {:induction false} InsertKeySorted(x: string, s: seq<string>)
    requires Sorted(s)
    ensures Sorted(InsertKey(x, s))
  {
    if s != [] && LexLess(s[0], x) {
      InsertKeySorted(x, s[1..]);
      LexAsymmetric(s[0], x);
      var r := InsertKey(x, s[1..]);
      assert [s[0]] + r == InsertKey(x, s);
      assert r[0] == x || r[0] == s[1];
    }
  }

  /** `SortKeys` sorts: its result is a sorted permutation of its input. */
  lemma {:induction false} SortKeysSorted(s: seq<string>)
    ensures Sorted(SortKeys(s)) && multiset(SortKeys(s)) == multiset(s)
  {
    if s != [] {
      SortKeysSorted(s[1..]);
      InsertKeySorted(s[0], SortKeys(s[1..]));
    }
  }

  /** Keys that are already in strictly increasing order are left where they are. */
  lemma {:induction false} SortKeysOfSorted(s: seq<string>)
    requires StrictlySorted(s)
    ensures SortKeys(s) == s
  {
    if s != [] {
      SortKeysOfSorted(s[1..]);
      if |s| > 1 {
        LexAsymmetric(s[0], s[1]);
      }
      assert s == [s[0]] + s[1..];
    }
  }

  /** The keys of increasing days in the four-digit era are in strictly increasing string order. */
  lemma KeysOfIncreasing(keyOf: Day -> string, ds: seq<Day>)
    requires KeyFacts(keyOf) && Increasing(ds) && InEra(ds)
    ensures StrictlySorted(KeysOf(keyOf, ds))
  {
    forall i | 0 < i < |ds|
      ensures LexLess(KeysOf(keyOf, ds)[i - 1], KeysOf(keyOf, ds)[i])
    {
      assert ds[i - 1] < ds[i];
    }
  }

  /** The streak loop. */

  /** Entries `j .. j + len - 1` of `ds` are `len` consecutive days. */
  predicate ConsecutiveAt(ds: seq<Day>, j: int, len: int) {
    1 <= len && 0 <= j && j + len <= |ds| && forall k :: j <= k < j + len ==> ds[k] == ds[j] + (k - j)
  }

  function Max(a: int, b: int): int {
    if a < b then b else a
  }

  /**
   * What the streak loop knows after entry `i - 1`: `run` is the length of the
   * longest block of consecutive days ending there, `streak` the length of a
   * block already closed, and no block within the first `i` entries is longer
   * than both.
   */
  ghost predicate StreakUpTo(ds: seq<Day>, i: int, run: int, streak: int) {
    && 1 <= run <= i <= |ds|
    && ConsecutiveAt(ds, i - run, run)
    && (i - run == 0 || ds[i - run] != ds[i - run - 1] + 1)
    && (streak == 0 || exists j :: ConsecutiveAt(ds, j, streak))
    && (forall j, len :: ConsecutiveAt(ds, j, len) && j + len <= i ==> len <= Max(streak, run))
  }

  /** A block that ends where the current run ends is no longer than the run. */
  lemma BlockWithinRun(ds: seq<Day>, i: int, run: int, j: int, len: int)
    requires 1 <= run <= i <= |ds| && ConsecutiveAt(ds, i - run, run)
    requires i - run == 0 || ds[i - run] != ds[i - run - 1] + 1
    requires ConsecutiveAt(ds, j, len) && j + len == i
    ensures len <= run
  {
  }

  /** A day that follows the previous one extends the current run. */
  lemma StreakExtend(ds: seq<Day>, i: int, run: int, streak: int)
    requires i < |ds| && StreakUpTo(ds, i, run, streak) && ds[i] - ds[i - 1] == 1
    ensures StreakUpTo(ds, i + 1, run + 1, streak)
  {
    assert ds[i - run + (run - 1)] == ds[i - run] + (run - 1);
    assert ConsecutiveAt(ds, i - run, run + 1);
    forall j, len | ConsecutiveAt(ds, j, len) && j + len <= i + 1
      ensures len <= Max(streak, run + 1)
    {
      if j + len == i + 1 && len > 1 {
        assert ConsecutiveAt(ds, j, len - 1);
        BlockWithinRun(ds, i, run, j, len - 1);
      }
    }
  }

  /** A gap closes the current run and starts a new one of length 1. */
  lemma StreakBreak(ds: seq<Day>, i: int, run: int, streak: int)
    requires i < |ds| && StreakUpTo(ds, i, run, streak) && ds[i] - ds[i - 1] != 1
    ensures StreakUpTo(ds, i + 1, 1, Max(streak, run))
  {
    assert ConsecutiveAt(ds, i, 1);
    assert ConsecutiveAt(ds, i - run, run);
    forall j, len | ConsecutiveAt(ds, j, len) && j + len <= i + 1
      ensures len <= Max(Max(streak, run), 1)
    {
    }
  }

  /**
   * The streak loop of `getHeatmapStats` over the sorted keys with a record,
   * `ds` being the days they name: the result is the length of the longest
   * block of consecutive days among them, 0 when there are none.
   */
  method LongestStreak(keys: seq<string>, ghost ds: seq<Day>) returns (streak: int)
    requires |keys| == |ds| && forall i :: 0 <= i < |keys| ==> ParseKey(keys[i]) == Some(ds[i])
    ensures |ds| == 0 ==> streak == 0
    ensures |ds| > 0 ==> exists j :: ConsecutiveAt(ds, j, streak)
    ensures forall j, len :: ConsecutiveAt(ds, j, len) ==> len <= streak
  {
    streak := 0;
    if |keys| > 0 {
      var run := 1;
      assert ConsecutiveAt(ds, 0, 1);
      for i := 1 to |keys|
        invariant StreakUpTo(ds, i, run, streak)
      {
        var prev, curr := ParseKey(keys[i - 1]), ParseKey(keys[i]);
        assert prev == Some(ds[i - 1]) && curr == Some(ds[i]);
        if prev.Some? && curr.Some? && curr.value - prev.value == 1 {
          StreakExtend(ds, i, run, streak);
          run := run + 1;
        } else {
          StreakBreak(ds, i, run, streak);
          ghost var closed := Max(streak, run);
          if run > streak {
            streak := run;
          }
          assert streak == closed;
          run := 1;
        }
      }
      StreakDone(ds, run, streak);
      if run > streak {
        streak := run;
      }
    }
  }

  /** After the last entry, the longer of the closed block and the open run is the longest block. */
  lemma StreakDone(ds: seq<Day>, run: int, streak: int)
    requires StreakUpTo(ds, |ds|, run, streak)
    ensures exists j :: ConsecutiveAt(ds, j, Max(streak, run))
    ensures forall j, len :: ConsecutiveAt(ds, j, len) ==> len <= Max(streak, run)
  {
    assert ConsecutiveAt(ds, |ds| - run, run);
  }

  /** Entries `j ..` of increasing days that start a filled stretch of days follow it one by one. */
  lemma {:induction false} FilledRun(ds: seq<Day>, j: int, len: int, t: int)
    requires Increasing(ds)
    requires 0 <= j < |ds| && forall d :: ds[j] <= d < ds[j] + len ==> d in ds
    requires 0 <= t < len
    ensures j + t < |ds| && ds[j + t] == ds[j] + t
    decreases t
  {
    if t > 0 {
      FilledRun(ds, j, len, t - 1);
      var d := ds[j] + t;
      assert d in ds;
      var k :| 0 <= k < |ds| && ds[k] == d;
    }
  }

  /** `len` consecutive recorded days among the `n` days from `lo` on, starting on `a`. */
  predicate RecordedRun(data: map<string, int>, keyOf: Day -> string, lo: Day, n: nat, a: Day, len: int) {
    1 <= len && lo <= a && a + len <= lo + n && forall d :: a <= d < a + len ==> Recorded(data, keyOf, d)
  }

  /** The recorded days among the `n` days from `lo` on, in increasing order. */
  function RecordedInSpan(data: map<string, int>, keyOf: Day -> string, lo: Day, n: nat): (r: seq<Day>)
    ensures Increasing(r)
    ensures forall d :: d in r <==> lo <= d < lo + n && Recorded(data, keyOf, d)
  {
    SpanFacts(lo, n);
    RecordedDaysIncreasing(data, keyOf, Span(lo, n));
    RecordedDays(data, keyOf, Span(lo, n))
  }

  /** A run of recorded days is a block of consecutive entries of the recorded days. */
  lemma RunIsBlock(data: map<string, int>, keyOf: Day -> string, lo: Day, n: nat, a: Day, len: int)
    requires RecordedRun(data, keyOf, lo, n, a, len)
    ensures var r := RecordedInSpan(data, keyOf, lo, n);
      exists j :: ConsecutiveAt(r, j, len) && r[j] == a
  {
    var r := RecordedInSpan(data, keyOf, lo, n);
    FilledIsBlock(r, a, len);
  }

  /** In increasing days, `len` days from `a` on that all occur sit one after another. */
  lemma FilledIsBlock(r: seq<Day>, a: Day, len: int)
    requires Increasing(r) && 1 <= len && forall d :: a <= d < a + len ==> d in r
    ensures exists j :: ConsecutiveAt(r, j, len) && r[j] == a
  {
    assert a in r;
    var j :| 0 <= j < |r| && r[j] == a;
    forall k | j <= k < j + len
      ensures k < |r| && r[k] == r[j] + (k - j)
    {
      FilledRun(r, j, len, k - j);
    }
    FilledRun(r, j, len, len - 1);
    assert ConsecutiveAt(r, j, len);
  }

  /** A block of consecutive entries of the recorded days is a run of recorded days. */
  lemma BlockIsRun(data: map<string, int>, keyOf: Day -> string, lo: Day, n: nat, j: int, len: int)
    requires ConsecutiveAt(RecordedInSpan(data, keyOf, lo, n), j, len)
    ensures RecordedRun(data, keyOf, lo, n, RecordedInSpan(data, keyOf, lo, n)[j], len)
  {
    var r := RecordedInSpan(data, keyOf, lo, n);
    var a := r[j];
    assert r[j] in r;
    assert r[j + len - 1] in r;
    forall d | a <= d < a + len
      ensures Recorded(data, keyOf, d)
    {
      assert r[j + (d - a)] in r;
    }
  }

  /**
   * In the four-digit era the keys with a record come out of the `forEach`
   * already in string order, so `sort()` leaves them alone, and they name the
   * recorded days in increasing order.
   */
  lemma RecordedKeysInOrder(data: map<string, int>, keyOf: Day -> string, lo: Day, n: nat)
    requires KeyFacts(keyOf) && FourDigitFirst <= lo && lo + n <= FourDigitEnd
    ensures var r, keys := RecordedInSpan(data, keyOf, lo, n), RecordedKeys(data, DayKeys(keyOf, lo, n));
      && SortKeys(keys) == keys
      && |keys| == |r|
      && forall i :: 0 <= i < |r| ==> ParseKey(keys[i]) == Some(r[i])
  {
    var r := RecordedInSpan(data, keyOf, lo, n);
    RecordedKeysOfDays(data, keyOf, Span(lo, n));
    assert forall i :: 0 <= i < |r| ==> r[i] in r;
    KeysOfIncreasing(keyOf, r);
    SortKeysOfSorted(KeysOf(keyOf, r));
  }

  /** What `getHeatmapStats` returns; the average `avgPerDay` is the fraction `avgNum / avgDen`. */
  datatype Summary = Summary(total: int, streakDays: int, daysInRange: int, avgNum: int, avgDen: int)

  /**
   * `streak` is the length of the longest run of consecutive recorded days among
   * the `n` days from `lo` on: 0 exactly when none is recorded, the length of
   * some run, no shorter than any run, and at most `n`.
   */
  ghost predicate LongestRun(data: map<string, int>, keyOf: Day -> string, lo: Day, n: nat, streak: int) {
    && (streak == 0 <==> forall d :: lo <= d < lo + n ==> !Recorded(data, keyOf, d))
    && (streak > 0 ==> exists a :: RecordedRun(data, keyOf, lo, n, a, streak))
    && (forall a, len :: RecordedRun(data, keyOf, lo, n, a, len) ==> len <= streak)
    && streak <= n
  }

  /** Carries the streak loop's result over from blocks of recorded days to runs of days. */
  lemma StreakOfRuns(data: map<string, int>, keyOf: Day -> string, lo: Day, n: nat, streak: int)
    requires var r := RecordedInSpan(data, keyOf, lo, n);
      && (|r| == 0 ==> streak == 0)
      && (|r| > 0 ==> exists j :: ConsecutiveAt(r, j, streak))
      && (forall j, len :: ConsecutiveAt(r, j, len) ==> len <= streak)
    ensures LongestRun(data, keyOf, lo, n, streak)
  {
    var r := RecordedInSpan(data, keyOf, lo, n);
    if |r| > 0 {
      var j :| ConsecutiveAt(r, j, streak);
      BlockIsRun(data, keyOf, lo, n, j, streak);
    } else {
      forall d | lo <= d < lo + n
        ensures !Recorded(data, keyOf, d)
      {
      }
    }
    forall a, len | RecordedRun(data, keyOf, lo, n, a, len)
      ensures len <= streak
    {
      RunIsBlock(data, keyOf, lo, n, a, len);
    }
  }

  /** A view whose first and last counted days have four-digit years counts only days of the four-digit era. */
  lemma ViewInEra(view: ViewRange, today: Day)
    requires FourDigitYear(RangeFirst(view, today)) && FourDigitYear(RangeLast(view, today))
    ensures FourDigitFirst <= RangeFirst(view, today) && RangeFirst(view, today) + RangeDays(view, today) <= FourDigitEnd
  {
    FourDigitEra(RangeFirst(view, today));
    FourDigitEra(RangeLast(view, today));
  }

  /**
   * The first lines of `getHeatmapStats`: the grid, its counted cells and their
   * unique keys, which are the keys of the counted days in date order.
   */
  method RangeKeys(view: ViewRange, today: Day) returns (keys: seq<string>)
    requires FourDigitYear(RangeFirst(view, today)) && FourDigitYear(RangeLast(view, today))
    ensures keys == DayKeys(FormatKey, RangeFirst(view, today), RangeDays(view, today))
  {
    ghost var lo, n := RangeFirst(view, today), RangeDays(view, today);
    ViewInEra(view, today);
    var grid := GridDates(view, today);
    var cells := RangeCells(grid, view, today);
    DatesFromSpan(cells, lo);
    FormatKeyFacts();
    keys := UniqueKeys(FormatKey, cells);
    SpanUniqueKeys(FormatKey, lo, n);
  }

  lemma DatesFromSpan(cells: seq<GridCell>, lo: Day)
    requires DatesFrom(cells, lo)
    ensures DatesOf(cells) == Span(lo, |cells|)
  {
  }

  /** The days of a span in the four-digit era have distinct keys, so their unique keys are all of them. */
  lemma SpanUniqueKeys(keyOf: Day -> string, lo: Day, n: nat)
    requires KeyFacts(keyOf) && FourDigitFirst <= lo && lo + n <= FourDigitEnd
    ensures FirstOccurrences(KeysOf(keyOf, Span(lo, n))) == DayKeys(keyOf, lo, n)
  {
    SpanFacts(lo, n);
    UniqueKeysOfIncreasing(keyOf, Span(lo, n));
  }

  /** The streak part of `getHeatmapStats`, run over the sorted keys with a record. */
  method RangeStreak(data: map<string, int>, view: ViewRange, today: Day, sorted: seq<string>) returns (streakDays: int)
    requires FourDigitYear(RangeFirst(view, today)) && FourDigitYear(RangeLast(view, today))
    requires sorted == SortKeys(RecordedKeys(data, DayKeys(FormatKey, RangeFirst(view, today), RangeDays(view, today))))
    ensures LongestRun(data, FormatKey, RangeFirst(view, today), RangeDays(view, today), streakDays)
  {
    ghost var lo, n := RangeFirst(view, today), RangeDays(view, today);
    ViewInEra(view, today);
    FormatKeyFacts();
    ghost var r := RecordedInSpan(data, FormatKey, lo, n);
    RecordedKeysInOrder(data, FormatKey, lo, n);
    streakDays := LongestStreak(sorted, r);
    StreakOfRuns(data, FormatKey, lo, n, streakDays);
  }

  /**
   * `getHeatmapStats(heatmap, viewRange)` with `today` for `new Date()`, for
   * views whose counted days lie in the years 1000..9999 (where keys are
   * `YYYY-MM-DD` with four digits).  With `lo .. lo + n - 1` the days the view
   * counts: `daysInRange` is `n`, `total` sums their counts, `streakDays` is the
   * length of the longest run of consecutive recorded days among them, and
   * the average is `total / daysInRange`.
   */
  method HeatmapStats(data: map<string, int>, view: ViewRange, today: Day) returns (s: Summary)
    requires FourDigitYear(RangeFirst(view, today)) && FourDigitYear(RangeLast(view, today))
    ensures var lo, n := RangeFirst(view, today), RangeDays(view, today);
      && s.daysInRange == n
      && s.total == SumCounts(data, DayKeys(FormatKey, lo, n))
      && LongestRun(data, FormatKey, lo, n, s.streakDays)
      && s.avgNum == s.total && s.avgDen == s.daysInRange
  {
    var keys := RangeKeys(view, today);
    var daysInRange := |keys|;
    var total, recorded := CountKeys(data, keys);
    var sorted := SortKeys(recorded);
    var streakDays := RangeStreak(data, view, today, sorted);
    var avgNum, avgDen := if daysInRange > 0 then total else 0, if daysInRange > 0 then daysInRange else 1;
    s := Summary(total, streakDays, daysInRange, avgNum, avgDen);
  }
}
