# fitness-calendar: the log store, the entry editor, the year grid and the stats series

This project is a Dafny model of the core of fitness-calendar. The app is a browser
calendar in which a user keeps one `DailyLog` per date. A log holds:

- the body metrics (weight, muscle mass, body-fat percent);
- a workout start and end time;
- a day status (workout, rest, travel or sick);
- the exercises done, as a map from category to detail items.

The model covers four parts of the app:

- **Storage** (`storage.dfy`). The store keeps the whole `CalendarData` map (date key to
  log) in one `localStorage` slot. It loads that map, and falls back to `{}` when there is
  no window or nothing parseable in the slot; a parse failure is also logged with
  `console.error`. It saves one record by overwriting its date key, and looks one record
  up. The browser is a value `Env`: whether a window exists, and what the slot holds
  (nothing, an empty string, text that fails to parse, or a parsed map).
- **Entry editor** (`entry_modal.dfy`). This is the draft an editor opens with and the
  category and detail toggles on its exercise map. It also covers the custom-item add, which
  trims its text and then toggles, and `handleSave`, which assembles the committed record.
- **Year calendar** (`year_calendar.dfy`, with `gregorian.dfy` and `text.dfy`). For each
  month this builds the grid: as many blanks as the weekday of the 1st, then one cell per
  day. Each cell carries:
  - the zero-padded `YYYY-MM-DD` key;
  - whether the day has data;
  - whether it is today;
  - its tooltip lines and what it displays.

  The `Date` calls are modelled by proleptic Gregorian arithmetic. This includes the quirk
  that `new Date(y, …)` reads years 0 to 99 as 1900 to 1999 (`Gregorian.JsYear`,
  `YearCalendar.TwoDigitYearGrid`).
- **Stats** (`stats_view.dfy`, with `key_order.dfy` and `lex.dfy`). This is the chart
  series: sort the keys, keep those that start with the year, map each to a point whose
  zero metrics become `null`, and drop points with nothing to plot.

Shared pieces:

- `wrappers.dfy`: `Option` and `Result`.
- `types.dfy`: the records of `types.ts`.
- `text.dfy`: `String(n)`, `padStart(2, '0')` and `trim`.
- `lex.dfy`: the default string sort order.

Two things stand in for JavaScript number handling. Metric values are `real`.
`parseFloat` and `Number.prototype.toString` are parameters of the editor functions: a
function `string -> Option<real>`, where `None` stands for NaN, and a function
`real -> string`.

`toggleDetail` creates the category, holding just the item, when the category is absent
(src/components/EntryModal.tsx:57-61).

The year filter of the stats series is `startsWith(String(year))`, a prefix test: the filter
of year 202 also lets through the keys of 2024 (`StatsView.InYearIsPrefixTest`). Between years
written with equally many digits it is exact (`StatsView.InYearSameWidth`).

## Model

| member | source | states |
|---|---|---|
| Storage.Load | src/lib/storage.ts:5-14 | Loading never fails. It returns the parsed map when the slot holds one. It returns the empty map when there is no window, no slot, an empty slot or unparseable text. |
| Storage.Save | src/lib/storage.ts:16-24 | Saving fails exactly when there is no window. On success the returned map has the saved record at its date. Its keys are the loaded keys plus that date, and every other record is unchanged. The persisted slot loads back as the returned map. |
| Storage.GetByDate | src/lib/storage.ts:26-29 | A lookup finds a record exactly when the loaded map has the key, and then returns that stored record. Otherwise it returns `None` (JavaScript `null`). |
| Storage.SaveThenGet | src/lib/storage.ts:16-29 | Round trip: with a window, a save succeeds, and looking up its date afterwards yields exactly the saved record. |
| Storage.SaveIdempotent | src/lib/storage.ts:16-24 | Saving the same record twice gives the same state and the same returned map as saving it once. |
| Storage.SaveReplacesRecord | src/lib/storage.ts:18-21 | Saving a second record for the same date replaces the first whole. No field of the first survives. |
| Storage.SavesCommute | src/lib/storage.ts:18-21 | Saves for two different dates lead to the same state in either order. |
| Storage.LoadFallback | src/lib/storage.ts:6-13 | When the slot holds nothing parseable, or there is no window, the load is `{}` and every lookup is `None`. |
| EntryModal.InitDraft | src/components/EntryModal.tsx:25-41 | A fresh editor has empty texts, no exercises, no scratch inputs and status workout. An editor opened on a record takes its status (workout when none is set), its start and end times (empty when unset), its exercise map (`{}` when unset), and the printed metric values (all three empty when the record has no metrics). |
| EntryModal.ToggleCategory | src/components/EntryModal.tsx:43-53 | The category is present afterwards exactly when it was absent before. A newly added category has no details. Every other category keeps its presence and its details. |
| EntryModal.ToggleCategoryTwice | src/components/EntryModal.tsx:43-53 | Toggling an absent category on and then off restores the map. |
| EntryModal.ToggleCategoryDiscards | src/components/EntryModal.tsx:43-53 | Toggling a present category off and on again leaves it with no details: the old details are discarded. |
| EntryModal.RemoveAll | src/components/EntryModal.tsx:59 | `filter(i => i !== item)` leaves no occurrence of the item. Every other element keeps its count. A list without the item is returned unchanged. |
| EntryModal.RemoveAllConcat | src/components/EntryModal.tsx:59 | Filtering a concatenation is concatenating the filtered parts, so the kept items stay in the order they had. |
| EntryModal.RemoveAllSingleton | src/components/EntryModal.tsx:59 | A single element is kept exactly when it differs from the item. With the concatenation law this fixes the result of the filter completely. |
| EntryModal.ToggleDetail | src/components/EntryModal.tsx:55-63 | The item is in the category's list afterwards exactly when it was not before. When it was absent, it is appended at the end. When it was present, the other items keep their counts. The category is created if missing, and no other category changes. |
| EntryModal.ToggleDetailRemovesInPlace | src/components/EntryModal.tsx:57-61 | Unticking an item that occurs once in `before + [item] + after` leaves exactly `before + after`: the other details keep their order. |
| EntryModal.ToggleDetailTwice | src/components/EntryModal.tsx:55-63 | Adding an absent item to a category that is already present, then toggling it again, restores the map. |
| EntryModal.ToggleDetailTwiceCreates | src/components/EntryModal.tsx:55-63 | In a category that is missing, toggling an item on and then off leaves the category in the map with an empty list. |
| EntryModal.RemoveAllKeepsNoDuplicates | src/components/EntryModal.tsx:59 | Removing an item from a list without duplicates leaves a list without duplicates. |
| EntryModal.ToggleDetailKeepsNoDuplicates | src/components/EntryModal.tsx:55-63 | A category list without duplicates keeps that property under a detail toggle. |
| EntryModal.RemoveAppended | src/components/EntryModal.tsx:58-60 | Removing an item that was just appended to a list that lacked it gives back the list it started from. |
| EntryModal.AddCustomItem | src/components/EntryModal.tsx:65-71 | With no scratch text, or scratch text that trims to empty, the draft is unchanged. Otherwise the trimmed text is toggled as a detail of the category, that scratch entry is reset to empty, and no other draft field changes. |
| EntryModal.AddCustomItemBlank | src/components/EntryModal.tsx:66-67 | Scratch text made only of whitespace characters adds nothing. |
| EntryModal.AddCustomItemRemovesExisting | src/components/EntryModal.tsx:65-71 | Adding a custom item that is already listed removes it from the list, keeps the counts of the other items and clears the scratch text. |
| EntryModal.HandleSave | src/components/EntryModal.tsx:73-88 | The committed record keeps the draft's date, times and status. It keeps the exercises only on a workout day and stores `{}` otherwise. It has metrics exactly when one of the three texts is non-empty, and each metric is the parsed text or 0. |
| EntryModal.BlankMetricIsZero | src/components/EntryModal.tsx:74-77 | A blank metric input next to a filled one is stored as 0. |
| EntryModal.ReopenAndSave | src/components/EntryModal.tsx:25-88 | A record in the shape the editor commits is reproduced when it is reopened and saved unchanged, provided number parsing reads back what number printing wrote. |
| Text.NatToDecimal | src/components/YearCalendar.tsx:34 | `String(n)` for a natural number is a non-empty string of decimal digits. It has one digit exactly below 10 and no leading zero. |
| Text.DecimalRoundTrip | src/components/YearCalendar.tsx:34 | Reading back the decimal rendering of a natural number gives the number. |
| Text.IntToString | src/components/YearCalendar.tsx:34 | `String(i)` is non-empty. It starts with a minus sign exactly when `i` is negative, and every other character is a decimal digit. |
| Text.IntToStringValue | src/components/YearCalendar.tsx:34 | The digits of `String(i)` denote `i` for a non-negative `i`, and `-i` after the minus sign for a negative one. |
| Text.IntToStringInjective | src/components/YearCalendar.tsx:34 | Different integers render as different strings. |
| Text.PadStart2 | src/components/YearCalendar.tsx:20 | `padStart(2, '0')` keeps strings of length two or more. It left-pads shorter ones with zeros to length two, and the input string ends the result. |
| Text.TwoDigitField | src/components/YearCalendar.tsx:34 | A number from 1 to 99 renders as exactly its tens digit and its units digit. |
| Text.TrimStart | src/components/EntryModal.tsx:66 | Only leading whitespace is dropped. The result is a suffix that starts with a non-space. |
| Text.TrimEnd | src/components/EntryModal.tsx:66 | Only trailing whitespace is dropped. The result is a prefix that ends with a non-space. |
| Text.TrimEmptyIff | src/components/EntryModal.tsx:66-67 | Stripping leading and then trailing whitespace leaves the empty string exactly when every character is whitespace. Both directions are proved. |
| Text.Trim | src/components/EntryModal.tsx:66-67 | `trim()` is empty exactly when the text is all whitespace. Otherwise it starts and ends with a non-space. It is the part of the text that follows the leading whitespace, and everything after it is whitespace too. |
| Gregorian.DaysInMonth | src/components/YearCalendar.tsx:24 | A month has 28 to 31 days, and February has 29 exactly in a leap year. |
| Gregorian.Weekday | src/components/YearCalendar.tsx:23 | `getDay()` is a weekday from 0 (Sunday) to 6. |
| Gregorian.MarchYearLength | src/components/YearCalendar.tsx:23-24 | The day count of a March-to-February year is 366 exactly when its February is a leap February, and 365 otherwise. |
| Gregorian.NextMonthStart | src/components/YearCalendar.tsx:23-24 | The 1st of the next month comes exactly the month's length in days after the 1st of this month, December into January included. |
| Gregorian.LastDayPrecedesNextMonth | src/components/YearCalendar.tsx:24 | Day 0 of the next month is the last day of this one, so `getDate()` of `new Date(y, m + 1, 0)` is the month's length. |
| Gregorian.NextMonthWeekday | src/components/YearCalendar.tsx:23-24 | The weekday of the next month's 1st is this month's first weekday plus its length, modulo 7. |
| Gregorian.NextYearWeekday | src/components/YearCalendar.tsx:23 | A year starts one weekday after the previous one, or two after a leap year. |
| Gregorian.CalendarExamples | src/components/YearCalendar.tsx:23-24 | February 2024 and February 2000 have 29 days, and February 2023 and February 1900 have 28. 1 January 2023 is a Sunday, 2022 a Saturday and 2024 a Monday. |
| YearCalendar.Tooltip | src/components/YearCalendar.tsx:43-66 | A rest, travel or sick record has only its status line. A workout record has at most the two lines below and no status line. It has the time line, with `??:??` for a missing side, exactly when a start or end time is set. It has the category line, with its category names, exactly when it has at least one category. When both are present the time line comes first. |
| YearCalendar.Shown | src/components/YearCalendar.tsx:43-77 | A rest, travel or sick record shows its glyph. A workout record shows time labels. Each label is present exactly when that time is set and non-empty, and then it is the record's own time. |
| YearCalendar.RenderCell | src/components/YearCalendar.tsx:33-91 | A cell's key is the date key of its day. It has data exactly when the key is in the map, and it is today exactly when its key equals today's key. A cell without data has no tooltip lines and no display. A cell with data shows its record's tooltip and display. |
| YearCalendar.FirstWeekday | src/components/YearCalendar.tsx:23 | The number of blanks before the 1st is between 0 and 6. |
| YearCalendar.MonthLength | src/components/YearCalendar.tsx:24 | A month's grid has between 28 and 31 day cells. |
| YearCalendar.RenderMonth | src/components/YearCalendar.tsx:22-95 | A month grid has as many blanks as the weekday of the 1st and as many cells as the month has days. Cell `i` is the cell of day `i + 1`, and the keys name days 1, 2, … of the month in order. |
| YearCalendar.DateKeyShape | src/components/YearCalendar.tsx:34 | For an in-range month and day, the key is `String(year)` and a dash, then exactly the five characters `MM-DD`. |
| YearCalendar.DateKeyPrefix | src/components/YearCalendar.tsx:34 | Every key opens with `String(year)` followed by a dash, whatever the month and day. |
| YearCalendar.TodayKey | src/components/YearCalendar.tsx:20 | `todayStr` has the same layout as the cell keys: `String(year)`, a dash and the five characters `MM-DD` of today. |
| YearCalendar.StatusOf | src/components/YearCalendar.tsx:37 | A record's status is the stored one when set. A status other than workout is always the stored one, so a record without status counts as a workout day. |
| YearCalendar.MonthDayOrder | src/components/YearCalendar.tsx:34 | The `MM-DD` tails sort as the dates they name: by month, then by day. |
| YearCalendar.DateKeyOrder | src/components/YearCalendar.tsx:34 | Within one year, date keys sort in date order. |
| YearCalendar.MonthKeysIncreasing | src/components/YearCalendar.tsx:33-34 | The keys of a month's cells strictly increase. |
| YearCalendar.DayKeysIncreasing | src/components/YearCalendar.tsx:33-34 | Cells whose keys name days 1, 2, … of one month have strictly increasing keys. |
| YearCalendar.DayKeysBefore | src/components/YearCalendar.tsx:33-34 | Every day key of an earlier month sorts before every day key of a later month. |
| YearCalendar.MonthsInKeyOrder | src/components/YearCalendar.tsx:99-104 | Every cell key of an earlier month of the grid sorts before every cell key of a later month. |
| YearCalendar.ConsecutiveMonthsAlign | src/components/YearCalendar.tsx:23-24 | The weekday of the next month's 1st equals this month's first weekday plus its length, modulo 7. These are the blanks and the day count of each grid, by `RenderMonth`'s contract. So, laid end to end, the months form one unbroken week grid. |
| YearCalendar.YearGridAligned | src/components/YearCalendar.tsx:97-105 | In the rendered year, each month's blanks equal the previous month's blanks plus its day cells, modulo 7. |
| YearCalendar.YearInKeyOrder | src/components/YearCalendar.tsx:97-105 | In the rendered year, every cell key of an earlier month sorts before every cell key of a later month. |
| YearCalendar.TwoDigitYearGrid | src/components/YearCalendar.tsx:23-34 | For a year from 0 to 99, the blanks and day count come from year 1900 + y, while the cell keys carry y itself and so differ from the keys of 1900 + y. |
| YearCalendar.YearZeroFebruary | src/components/YearCalendar.tsx:24 | Year 0 is a leap year, yet its February grid has 28 cells, because `new Date(0, 2, 0)` falls in 1900. |
| YearCalendar.DateKeyInjective | src/components/YearCalendar.tsx:20-34 | Two keys of in-range dates are equal exactly when the dates are equal. |
| YearCalendar.YearFieldInjective | src/components/YearCalendar.tsx:34 | Equal year fields of two keys mean equal years. |
| YearCalendar.MonthDayDigitsInjective | src/components/YearCalendar.tsx:34 | Equal `MM-DD` tails mean equal months and days. |
| YearCalendar.IsTodayIff | src/components/YearCalendar.tsx:20-38 | A cell is marked today exactly when today is that cell's date, whatever the data holds. |
| YearCalendar.StatusCellIgnoresDetails | src/components/YearCalendar.tsx:44-52 | Rest, travel and sick records with the same status have the same single tooltip line and the same glyph, whatever their times and exercises. |
| Lex.LessIrreflexive | src/components/StatsView.tsx:15 | No key sorts before itself. |
| Lex.LessTransitive | src/components/StatsView.tsx:15 | The sort order is transitive. |
| Lex.LessTotal | src/components/StatsView.tsx:15 | Of two different keys, one sorts before the other. |
| Lex.LessAsymmetric | src/components/StatsView.tsx:15 | Two keys never sort before each other. |
| Lex.LessPrefixed | src/components/StatsView.tsx:15-16 | A shared prefix does not change the order of two keys. |
| Lex.LessAtFirstDifference | src/components/StatsView.tsx:15 | Keys that agree up to a position and differ there are ordered by the characters at that position. |
| KeyOrder.LeastExists | src/components/StatsView.tsx:15 | A non-empty key set has a smallest key. |
| KeyOrder.LeastUnique | src/components/StatsView.tsx:15 | The smallest key is unique. |
| KeyOrder.Least | src/components/StatsView.tsx:15 | The chosen key is the smallest of the set. |
| KeyOrder.SortedKeys | src/components/StatsView.tsx:15 | `Object.keys(data).sort()` is strictly ascending, with exactly the map's keys, each once. |
| KeyOrder.SortedUnique | src/components/StatsView.tsx:15 | Two strictly ascending sequences with the same members are equal. |
| KeyOrder.Filter | src/components/StatsView.tsx:16 | `filter` keeps exactly the elements that pass and never grows the sequence. |
| KeyOrder.FilterSorted | src/components/StatsView.tsx:16 | Filtering a strictly ascending sequence leaves it strictly ascending. |
| KeyOrder.FilterSortedKeys | src/components/StatsView.tsx:15-16 | Filtering the sorted keys equals sorting the filtered key set. |
| StatsView.InYear | src/components/StatsView.tsx:16 | A key passes the year filter exactly when it is at least as long as `String(year)` and agrees with it character by character at the start. |
| StatsView.DateKeyInYear | src/components/StatsView.tsx:16 | Every date key of a year passes that year's filter. |
| StatsView.InYearSameWidth | src/components/StatsView.tsx:16 | For two years written with equally many characters, the date keys of one pass the filter of the other exactly when the years are equal. |
| StatsView.InYearIsPrefixTest | src/components/StatsView.tsx:16 | The filter of year 202 lets through the keys of 2024. |
| StatsView.MetricOf | src/components/StatsView.tsx:22-24 | A chart value is missing exactly when the record has no metrics or the metric is 0. Otherwise it is the stored value. |
| StatsView.PointOf | src/components/StatsView.tsx:18-25 | A point carries the key's `MM-DD` label. Each value is `null` exactly when the record has no metrics or that metric is 0; otherwise it is the stored metric itself. |
| StatsView.ChartedIff | src/components/StatsView.tsx:26 | A record yields a point to plot exactly when it has metrics with at least one non-zero value. |
| StatsView.ToPoints | src/components/StatsView.tsx:18-25 | The map gives one point per key, in the same order. |
| StatsView.KeepCharted | src/components/StatsView.tsx:26 | The filter keeps exactly the points with something to plot. |
| StatsView.ChartData | src/components/StatsView.tsx:14-27 | Every point of the series has something to plot. |
| StatsView.KeepChartedPoints | src/components/StatsView.tsx:18-26 | Dropping empty points after the map equals dropping their keys before it. |
| StatsView.ChartDataIsSortedProjection | src/components/StatsView.tsx:14-27 | The series is exactly one point per key that has the year's prefix and something to plot, in ascending key order. |
| StatsView.ChartDataBound | src/components/StatsView.tsx:14-27 | The series has at most one point per key with the year's prefix. |

## Left out

- Rendering: the JSX, CSS classes, emoji text and click handlers are not modelled. The tooltip is a list of line values (status, time range, category set) rather than the joined string, and the display is a value rather than elements.
- Category order: the category line of the tooltip carries the set of category names. `Object.keys` insertion order and the `', '` join are not modelled, because maps here have no order.
- Draft field setters: the `onChange` setters of the text inputs and status buttons only replace one field and are not modelled. The suggested detail lists in `WORKOUT_CATEGORIES` are display data.
- `JSON.parse` and `JSON.stringify` are not modelled as text. The slot holds either nothing, the empty string, text that fails to parse, or a parsed map. A slot that parses to something other than an object (`null`, a number) is left out. So are failures of `localStorage.setItem` (quota) and the `console.error` log.
- Number conversion: `parseFloat` and `Number.prototype.toString` are parameters, and metric values are `real`. IEEE-754 rounding, NaN and infinities are not modelled beyond `None` standing for NaN.
- Sort order: `Array.prototype.sort` compares UTF-16 code units, while `Lex.Less` compares characters (code points). The two agree on date keys and on all text in the Basic Multilingual Plane.
- Clock: "now" is a parameter (`YearCalendar.Today`). `Date` objects, time zones and years outside the range of a JavaScript `Date` (about ±271,821) are not modelled.
- Property-key quirks: `data[dateStr]` is a map lookup, so inherited keys such as `__proto__` are not modelled. A stored `null` record is not modelled either.
- The page: src/app/page.tsx (year navigation and modal wiring) is not part of this model.
- Backup export and import (src/components/StatsView.tsx:131-173) write a file and read one back through `FileReader`, `alert` and a page reload. They are file and page I/O and are not modelled.
- The stats charts themselves (recharts components) are not part of this model. Only the series they are fed is modelled.
