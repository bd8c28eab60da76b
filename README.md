# Habit heat-maps in Dafny

A model of the core of a browser habit tracker (`app.js`). Each habit is a
heat-map: a grid of 53 week columns by 7 weekday rows, one cell per day. A
cell shows how often the habit was done that day. Counts are stored in a map
from `YYYY-MM-DD` keys to integers.

The model covers:

- the calendar and the grid of a view. A view is either "recent" (the 53 weeks
  up to this week) or one year.
- the date keys.
- the statistics: total, days in range, longest streak and daily average.
- the five colour levels and the hex/RGB conversions.
- the month labels above the columns.
- the year picker.
- editing a cell by click or context menu.
- deleting a heat-map.

Conventions of the model:

- **Dates.** A date is a whole day number: day 0 is 1970-01-01, a Thursday.
  The code always snaps its `Date` values to local midnight, and
  `getFullYear`, `getMonth() + 1`, `getDate` and `getDay` become
  `Calendar.CivilFromDays` and `Calendar.Weekday` on that number.
  `new Date()` is a parameter `today` (or `currentYear`).
- **Weeks start on Monday**, as in `getWeekStart`.
- **The recent view counts all 371 cells of its grid.** This is the code's
  figure: `rangeDates` is the whole grid. A year view counts its `inYear`
  cells.
- **A year view can drop 31 December.** If the year is a leap year whose
  1 January is a Sunday, the grid opens six days before 1 January. Its 371
  cells then end on 30 December, so 31 December has no cell and is neither
  shown nor counted. 2012 is such a year (`Grid.Year2012LosesNewYearsEve`).
- **Sorting keys.** `formatDateKey` pads the month and the day but not the
  year, so keys sort as strings in date order only for four-digit years.
  The statistics are stated for views whose counted days lie in the years
  1000..9999 (see "## Left out").
- **Proofs over the key function.** The statistics lemmas take the key
  function as a parameter. They need only `DateKey.KeyFacts`: keys sort in
  day order and `new Date(key)` reads a key back as its day.
  `DateKey.FormatKeyFacts` proves both facts for `formatDateKey`
  (`DateKey.FormatKey`).

Modules:

| module | what it models |
|---|---|
| `Calendar` | the proleptic Gregorian calendar on day numbers; the 0..99 year rule of `new Date(y, m, d)` |
| `DateKey` | `formatDateKey`, `new Date(key)` and the string order of keys |
| `Grid` | `getWeekStart`, `getGridDates`, the counted range of a view, `getYearOptions` |
| `MonthLabels` | `buildMonthLabels`: which columns get a label, and with which month |
| `Stats` | `getHeatmapStats` |
| `Colors` | `getLevel`, `hexToRgb`, `rgbToHex`, `parseInt(_, 16)`, `getLevelColors`, the hex input check |
| `Heatmaps` | `updateCellCount`, the click and context-menu rules, `getHeatmapIndex` and the delete button |

## Model

| member | source | states |
|---|---|---|
| Calendar.CivilFromDays | app.js:90-94 | the calendar date of a day number is a valid date that maps back to that day number (`getFullYear`, `getMonth() + 1`, `getDate`) |
| Calendar.CivilRoundTrip | app.js:90-94 | every valid calendar date survives the trip to a day number and back |
| Calendar.DayOrderIsCivilOrder | app.js:90-94 | a day comes before another exactly when its calendar date comes first in (year, month, day) order |
| Calendar.CivilOrderIsDayOrder | app.js:90-94 | for valid dates, (year, month, day) order is the order of their day numbers, in both directions |
| Calendar.YearOfUnique | app.js:91 | `getFullYear` is the one year whose span holds the day |
| Calendar.YearOfMono | app.js:91 | `getFullYear` never decreases as days go on |
| Calendar.ConstructorYear | app.js:69-72 | `new Date(y, 0, 1)` reads a year 0..99 as 1900..1999 and keeps every other year |
| Calendar.Weekday | app.js:51 | `getDay` lies in 0..6 |
| Grid.WeekStart | app.js:50-57 | the week start is a Monday, on or at most six days before the given day |
| Grid.WeekStartUnique | app.js:50-57 | any Monday at most six days before a day is that day's week start |
| Grid.WeekStartOfWeek | app.js:50-57 | all seven days of a week snap to its Monday, and snapping twice changes nothing |
| Grid.YearBounds | app.js:69-73 | 1 January and 31 December of the viewed year are the first and last days of that year |
| Grid.GridDates | app.js:59-88 | 371 cells in column-major order; cell `i` is in column `i / 7` and row `i % 7`; consecutive cells are consecutive days starting at the grid's first day; `inYear` as the view defines it |
| Grid.YearGridAnchor | app.js:69-82 | a year grid opens on the Monday of the week that holds 1 January |
| Grid.InYearIsYearOf | app.js:70-83 | in a year view a cell is `inYear` exactly when its date falls in the viewed year |
| Grid.RecentGridAnchor | app.js:64-83 | in the recent view every cell is `inYear`; column 52 opens on this week's Monday and holds today |
| Grid.InRangeIsInterval | app.js:100 | a cell is counted exactly when its date lies between the view's first and last counted day |
| Grid.RangeDays | app.js:99-103 | a view counts between 365 and 371 days |
| Grid.RangeLength | app.js:59-88 | the recent view counts 371 days; a year view counts its whole year, except 365 for a leap year whose 1 January is a Sunday |
| Grid.Year2012LosesNewYearsEve | app.js:69-83 | in the 2012 view, 31 December lies one day past the last cell, and the last counted day is 30 December |
| Grid.YearOptions | app.js:172-177 | eleven years, newest first, from the current year down to ten years before it, one apart |
| DateKey.PadStart2 | app.js:92-93 | `padStart(2, "0")` turns one character into two by padding on the left and leaves longer strings alone |
| DateKey.DigitsRoundTrip | app.js:92-94 | a fixed-width decimal field reads back as the number it was written from |
| DateKey.DigitsOrder | app.js:92-94 | fixed-width decimal strings compare as strings exactly as their numbers compare, and are equal exactly when the numbers are |
| DateKey.LexConcat | app.js:111 | string comparison of two joins whose heads have equal length is decided by the heads unless the heads are equal |
| DateKey.CivilKeyFields | app.js:90-94 | the key of a date with a four-digit year is a four-digit year, a two-digit month and a two-digit day, joined by dashes |
| DateKey.CivilKeyOrder | app.js:90-94 | for four-digit years, keys compare as strings exactly as their dates compare, and they are equal only for equal dates |
| DateKey.FourDigitEra | app.js:91 | a day has a four-digit year exactly when it lies in the span from 1000-01-01 to 9999-12-31 |
| DateKey.KeyOrder | app.js:90-94 | for days with four-digit years, the earlier day has the smaller key, and distinct days have distinct keys |
| DateKey.KeyOrderInEra | app.js:90-94 | the same, for days given by their place in that span |
| DateKey.ParseCivilKey | app.js:116-119 | `new Date(key)` reads the key of a date with a four-digit year back as that date |
| DateKey.ParseFormatKey | app.js:116-119 | `new Date(formatDateKey(d))` gives back the day `d` |
| DateKey.FormatKeyFacts | app.js:111-120 | `formatDateKey` keys sort in day order and parse back to their days, throughout the four-digit era |
| Stats.RecordedDays | app.js:107-109 | the filter keeps exactly the days of the sequence that have a count of at least 1 |
| Stats.RecordedDaysIncreasing | app.js:106-110 | filtering days keeps them in increasing order |
| Stats.RecordedKeysOfDays | app.js:106-110 | filtering the keys of some days for a record gives the keys of the recorded days |
| Stats.RangeCells | app.js:99-100 | `rangeDates` has as many cells as the view counts, and its cells are dated from the first counted day on, one day apart |
| Stats.FirstOccurrences | app.js:101-102 | the set's entries are distinct, and they are exactly the entries added |
| Stats.FirstOccurrencesOfDistinct | app.js:101-102 | adding distinct keys to a set keeps them all, in order |
| Stats.UniqueKeys | app.js:101-102 | `uniqueKeys` holds the keys of the counted dates, each once, in the order they were first added |
| Stats.UniqueKeysOfIncreasing | app.js:101-103 | for increasing days with four-digit years no key repeats, so the set holds exactly their keys |
| Stats.DayKeysDistinct | app.js:101-103 | the counted days have pairwise distinct keys, so `daysInRange` counts days |
| Stats.SpanUniqueKeys | app.js:99-103 | the unique keys of a run of days with four-digit years are all their keys, in date order |
| Stats.RangeKeys | app.js:99-103 | `uniqueKeys` of a view holds the keys of its counted days in date order |
| Stats.CountKeys | app.js:104-110 | `total` is the sum of the counts under the keys, a missing key counting 0; `keysWithRecord` holds, in order, the keys whose count is at least 1 |
| Stats.InsertKey | app.js:111 | inserting a key keeps every element of the sequence and adds the key once |
| Stats.SortKeys | app.js:111 | sorting permutes the keys |
| Stats.SortKeysSorted | app.js:111 | the sorted keys are in string order and are a permutation of the input |
| Stats.InsertKeySorted | app.js:111 | inserting into sorted keys keeps them sorted |
| Stats.SortKeysOfSorted | app.js:111 | keys already in strictly increasing order stay where they are |
| Stats.KeysOfIncreasing | app.js:104-111 | the keys of increasing days with four-digit years are in strictly increasing string order |
| Stats.RecordedKeysInOrder | app.js:104-111 | the keys with a record come out already sorted, so `sort()` leaves them alone, and they name the recorded days in increasing order |
| Stats.LongestStreak | app.js:112-128 | over the parsed days of the sorted keys, `streakDays` is 0 for no keys; otherwise some block of consecutive days has exactly that length and none is longer |
| Stats.StreakExtend | app.js:120-121 | a day that follows the previous one extends the current run |
| Stats.StreakBreak | app.js:122-125 | a gap closes the current run into the streak and starts a new run of one |
| Stats.StreakDone | app.js:127 | after the last key, the longer of the closed streak and the open run is the longest block |
| Stats.RecordedInSpan | app.js:104-110 | the recorded days of a view, increasing, are exactly its recorded days |
| Stats.FilledIsBlock | app.js:112-128 | in increasing days, a stretch of consecutive days that all occur is a block of consecutive entries |
| Stats.RunIsBlock | app.js:112-128 | a run of consecutive recorded days is a block of consecutive entries of the recorded days |
| Stats.BlockIsRun | app.js:112-128 | a block of consecutive entries of the recorded days is a run of consecutive recorded days |
| Stats.StreakOfRuns | app.js:112-128 | the loop's result is the longest run of recorded days: 0 exactly when none is recorded, the length of some run, no run longer, at most the days counted |
| Stats.ViewInEra | app.js:99-100 | a view whose first and last counted days have four-digit years counts only such days |
| Stats.RangeStreak | app.js:111-128 | `streakDays` is the length of the longest run of consecutive recorded days in the view: 0 exactly when none is recorded, the length of some such run, no shorter than any, and at most `daysInRange` |
| Stats.HeatmapStats | app.js:98-131 | `daysInRange` is the number of days the view counts; `total` sums their counts; `streakDays` is their longest run of consecutive recorded days; `avgPerDay` is `total / daysInRange` |
| Colors.Level | app.js:133-139 | the level lies in 0..4 |
| Colors.LevelMono | app.js:133-139 | a larger count never has a lower level |
| Colors.LevelOfCount | app.js:133-139 | level 0 exactly for counts up to 0; counts 1, 2 and 3 are their own level; level 4 exactly for counts of 4 or more |
| Colors.HexChar | app.js:191 | a digit below 16 is written as a lower-case hex character that reads back as the digit |
| Colors.HexCharOfValue | app.js:191 | a lower-case hex character is written back as itself |
| Colors.HexPairValue | app.js:188 | two hex digits denote a number in 0..255 |
| Colors.TrimStart | app.js:144-146 | `parseInt` skips leading white space: every character dropped is white space, and the suffix left does not start with white space |
| Colors.HexPrefix | app.js:144-146 | `parseInt` reads the longest run of hex digits at the front |
| Colors.ParseIntHexIsNaN | app.js:144-146 | `parseInt(s, 16)` is NaN exactly when no hex digit follows the leading white space, the one optional sign and the optional `0x` it skips, for every string |
| Colors.HexPrefixStops | app.js:144-146 | the digits read from hex digits followed by a non-digit are exactly those digits |
| Colors.ParseIntHexStops | app.js:144-146 | hex digits followed by anything that is not a digit parse to the digits' value, unless a lone `0` and an `x` form a `0x` prefix |
| Colors.ParseIntHexAfterSign | app.js:144-146 | after a `-` the digits that follow are read and negated; after a `+` they are read as they are |
| Colors.ParseIntHexSigned | app.js:144-146 | `-` before hex digits and a non-digit tail gives the negated value, `+` gives the value |
| Colors.ParseIntHexOfDigits | app.js:144-146 | `parseInt(s, 16)` of a non-empty string of hex digits is its value |
| Colors.ParseIntHexPair | app.js:144-146 | `parseInt(s, 16)` of two hex digits is the pair's value |
| Colors.ParseIntHexStopsAtNonDigit | app.js:144-146 | an instance of the rule that reading stops at the first non-digit: `parseInt("7z", 16)` gives 7 |
| Colors.ParseIntHexNegative | app.js:144-146 | an instance of the sign rule: `parseInt("-f", 16)` gives -15 |
| Colors.ParseIntHexNaN | app.js:144-146 | instances of the NaN rule: `parseInt("zz", 16)` and `parseInt("", 16)` give NaN |
| Colors.HexDigitsOf | app.js:187 | an accepted colour has exactly six hex digits after its optional `#` |
| Colors.HexDigitsAreLastSix | app.js:187 | those six digits are the colour's last six characters, and a seventh character in front is the `#` |
| Colors.HexToRgb | app.js:186-189 | every channel lies in 0..255, and input that is not six hex digits with an optional `#` gives (0, 0, 0) |
| Colors.Clamp | app.js:191 | the channel is clamped into 0..255: kept when inside, 0 below, 255 above |
| Colors.HexByteFacts | app.js:191 | every channel is written as exactly two lower-case hex digits that read back as the clamped value |
| Colors.RgbToHex | app.js:190-192 | the result is `#` and six lower-case hex digits |
| Colors.HexRoundTrip | app.js:186-192 | parsing the hex of (r, g, b) gives back the clamped channels |
| Colors.HexRoundTripInRange | app.js:186-192 | for channels in 0..255, parsing the hex gives back exactly (r, g, b) |
| Colors.HexByteOfPair | app.js:188 | two lower-case hex digits read as a number are written back as themselves |
| Colors.RgbRoundTrip | app.js:186-192 | a lower-case `#rrggbb` colour survives the trip to channels and back |
| Colors.EmptyColorChannels | app.js:142-155 | the empty colour `#ebedf0` has channels (235, 237, 240), the base that the levels blend towards |
| Colors.BlendBounds | app.js:147-156 | level 0 of a blend is the base channel, level 4 the colour's own channel, and every level lies between the two |
| Colors.BlendMono | app.js:147-156 | the blended channel moves from the base towards the colour as the level rises |
| Colors.Slice | app.js:144-146 | `slice(a, b)` has at most `b - a` characters |
| Colors.LevelColors | app.js:141-160 | five colours: level 0 is `#ebedf0`, and levels 1..4 are `rgb(...)` of each channel of `hex`, parsed with `parseInt(_, 16)` and blended with the empty colour's channel in quarters |
| Colors.BlendLevels | app.js:147-158 | the loop adds the four blended `rgb(...)` colours after the empty colour |
| Colors.ChannelsOfHexColor | app.js:144-146 | for a `#rrggbb` colour, the channels `getLevelColors` parses are the channels `hexToRgb` gives |
| Colors.ChannelOfHexColor | app.js:144-146 | each of the three `slice`s of a `#rrggbb` colour is a pair of hex digits, parsed to that pair's value |
| Colors.LevelColorOfHex | app.js:141-160 | for a `#rrggbb` colour, level `i` blends each channel `i` quarters of the way from the empty colour's channel; every blended channel lies in 0..255, and level 4 is the colour itself |
| Colors.WithHash | app.js:588-595 | a hex colour with a `#` put in front when missing is still a hex colour, starts with `#` and keeps the same six digits |
| Colors.HexInput | app.js:588-595 | the hex input field applies a colour exactly when the trimmed input is six hex digits with an optional `#`; the colour applied is `#` followed by those six digits |
| Colors.Trim | app.js:589 | `trim()` keeps one stretch of the input, drops only white space before and after it, and leaves no white space at either end |
| Colors.TrimBothEnds | app.js:589 | removing leading and then trailing white space removes only white space from both ends |
| Colors.TrimEnd | app.js:589 | trimming the end keeps a prefix that does not end in white space, and every character dropped is white space |
| MonthLabels.MonthOf | app.js:213-215 | the month of a date lies in 1..12 |
| MonthLabels.MonthOfIsCivilMonth | app.js:213-215 | the month read off a grid date is the month of that date's calendar form, the same month the date key shows |
| MonthLabels.EarliestInColumn | app.js:210-212 | `None` exactly when the column has no `inYear` cell; otherwise the earliest date among that column's `inYear` cells |
| MonthLabels.ColumnMonth | app.js:208-216 | a column's month, when there is one, lies in 1..12 |
| MonthLabels.ColumnMonths | app.js:207-216 | one month slot per column, each month in 1..12 where there is one |
| MonthLabels.FindColumnMonth | app.js:208-216 | the month of a column: the month of its earliest `inYear` date in a year view (`None` when it has none), the month of its first cell otherwise |
| MonthLabels.HasLabelAppend | app.js:218 | appending a label puts one at its column and changes no other column |
| MonthLabels.LabelStart | app.js:217-220 | a column that starts a new month gets a label and becomes the last month seen |
| MonthLabels.LabelSkip | app.js:211-217 | a skipped column, or one with the same month as the last, adds no label |
| MonthLabels.LabelsDone | app.js:207-222 | after the last column the labels are exactly those the columns call for |
| MonthLabels.BuildMonthLabels | app.js:203-222 | labels name columns in increasing order, each with its column's month; a column is labelled exactly when it has a month and is column 0 or its month differs from the last month seen before it |
| Heatmaps.ToInt32 | app.js:459 | a bitwise or with 0 gives a value in the 32-bit signed range that differs from `x` by a multiple of 2^32, and gives `x` itself inside that range |
| Heatmaps.SetCount | app.js:411-412 | the new count is stored under the key, the key is removed when the count is 0, and no other key changes |
| Heatmaps.ClickRules | app.js:457-466 | on a cell shown empty a click does nothing; otherwise a click adds one, and a shift-click takes one off a positive count and does nothing to 0 |
| Heatmaps.ShiftClickUndoesClick | app.js:457-466 | for a count below 2^31 - 1, a shift-click undoes a click |
| Heatmaps.MenuRules | app.js:468-473 | both menu buttons do nothing on a cell shown empty or with no count; otherwise "decrease" takes one off and "clear" sets 0; neither sets a negative count |
| Heatmaps.EditsKeepCountsValid | app.js:457-473 | when every stored count is in 1..2^31 - 1, each edit keeps it so: a shift-click or a menu button always, and a plain click while the count is below 2^31 - 1 |
| Heatmaps.ClickWrapsAt2To31 | app.js:459-464 | a click on 2^31 - 1 stores 2^31, and a click on 2^31 wraps round through the bitwise or with 0 and stores -(2^31 - 1) |
| Heatmaps.Heatmap.constructor | app.js:162-170 | a heat-map with the given id, counts and view |
| Heatmaps.Heatmap.UpdateCellCount | app.js:408-417 | the counts become `SetCount` of the old ones and the view is unchanged; a cell shown empty displays count and level 0, others display the new count and its level |
| Heatmaps.Heatmap.Click | app.js:457-466 | the counts change as `ClickCount` says, or stay as they were when it gives nothing |
| Heatmaps.Heatmap.Menu | app.js:468-473 | the counts change as `MenuCount` says, or stay as they were when it gives nothing |
| Heatmaps.FirstIndex | app.js:41-43 | -1 exactly when no heat-map has the id; otherwise the index of the first one with it |
| Heatmaps.WithoutContents | app.js:615-622 | removing an id keeps exactly the heat-maps with other ids |
| Heatmaps.WithoutOnlyOthers | app.js:615-622 | everything left after removing an id was in the list and has another id |
| Heatmaps.WithoutKeepsOthers | app.js:615-622 | every heat-map with another id is kept |
| Heatmaps.WithoutAbsent | app.js:618 | removing an id that no heat-map has changes nothing |
| Heatmaps.WithoutConcat | app.js:615-622 | removing an id from two lists joined is removing it from each |
| Heatmaps.SpliceKeepsDistinct | app.js:619 | splicing out one heat-map keeps the ids distinct |
| Heatmaps.RemoveFirstIsWithout | app.js:615-622 | with distinct ids, splicing out the first heat-map with an id removes that id and keeps the ids distinct |
| Heatmaps.SpliceWithout | app.js:619 | splicing out the one heat-map with an id leaves exactly the heat-maps without it |
| Heatmaps.FirstIndexOfPrefix | app.js:41-43 | the first match in a prefix is the first match in the whole list |
| Heatmaps.HeatmapList.constructor | app.js:27-35 | the list holds the given heat-maps |
| Heatmaps.HeatmapList.GetHeatmapIndex | app.js:41-43 | the index of the first heat-map with the id, or -1 exactly when none has it |
| Heatmaps.HeatmapList.Delete | app.js:615-622 | once confirmed, the first heat-map with the id is spliced out; nothing changes when the user cancels or the id is gone |

## Left out

- Rendering, tooltips, the cell menu's placement, focus and closing, the colour picker's widgets, `buildLegendHTML` and `escapeHtml`: these are DOM work with no logic to prove. The menu's enabling rule is modelled (`Heatmaps.MenuCount`).
- Loading and saving through `localStorage`, the token and gist synchronisation, `fetch`, and `uuid`: these are I/O. Ids are given to the constructors, and saving is not modelled.
- Time of day, time zones and daylight saving: dates are whole days. This leaves out `setHours`, the hour-level rounding in the streak loop, and the UTC reading of `new Date(key)`. West of UTC that reading falls on the previous local day; the streak loop uses only the difference of two such readings, and the model assumes both keys shift by the same amount, so it reads each key as its own day.
- `avgPerDay.toFixed(2)`: floating point. The average is the exact fraction `avgNum / avgDen`.
- `applyColor` and its looser colour pattern: only the hex input check in front of it is modelled (`Colors.HexInput`).
- `sw.js` and the icon build script: these are outside the core.
- Stats.HeatmapStats: stated only for views whose first and last counted days have four-digit years (1000..9999). Outside that era an unpadded year breaks the string sort, and the model does not say what the code then computes.
- Stats.RangeStreak: stated under the same four-digit-year precondition as `Stats.HeatmapStats`.
- Stats.LongestStreak: takes the days its keys name as a ghost parameter. Its keys must parse, as every key `formatDateKey` writes in that era does.
- Colors.RgbToHex: takes whole numbers only. `Math.round` of a fraction and `NaN` inputs are not modelled.
- Colors.LevelColors: the colours are values of `CssColor`, and `Colors.CssText` writes them as the code's CSS text. `Math.round` on non-integer products of `t` is written as integer rounding `(c·i + base·(4 − i) + 2) / 4`, which is equal for whole-number channels.
- Heatmaps.Heatmap.Menu: reads the count when the button is pressed. The code captures `cur` when the menu opens, which is the same value unless the count changes while the menu is open.
- Heatmaps.ToInt32: models the bitwise or with 0 on whole numbers only. Counts that are fractions or `NaN` are not modelled.
- MonthLabels.BuildMonthLabels: months are 1..12 where the code uses the 0-based `getMonth()`, and `None` stands for a column the code skips. The label text `(month + 1) + "月"` and the pixel offset are not modelled.
