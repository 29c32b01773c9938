/** The year view: for each month, the leading blank cells and one annotated cell per day. */
module YearCalendar {
  import opened Wrappers
  import opened Types
  import opened Text
  import opened Lex
  import opened Gregorian

  /** The date key `${year}-MM-DD`: year as `String(year)`, month and day zero-padded.
      Its shape is stated by `DateKeyPrefix` and `DateKeyShape`, not as a postcondition, so
      that proofs about whole months do not unfold it at every cell. */
  function DateKey(year: int, month: int, day: int): string
  {
    IntToString(year) + "-" + MonthDay(month, day)
  }

  /** Every key opens with the year field and a dash. */
  lemma DateKeyPrefix(year: int, month: int, day: int)
    ensures |IntToString(year)| < |DateKey(year, month, day)|
    ensures DateKey(year, month, day)[..|IntToString(year)|] == IntToString(year)
    ensures DateKey(year, month, day)[|IntToString(year)|] == '-'
  {
    KeyPrefix(IntToString(year), MonthDay(month, day));
  }

  /** A key built as `${y}-${tail}` opens with `y` and a dash. */
  lemma KeyPrefix(y: string, tail: string)
    ensures |y| < |y + "-" + tail|
    ensures (y + "-" + tail)[..|y|] == y && (y + "-" + tail)[|y|] == '-'
  {
  }

  /** The `MM-DD` tail of a date key. */
  function MonthDay(month: int, day: int): string
  {
    PadStart2(IntToString(month)) + "-" + PadStart2(IntToString(day))
  }

  /** The five characters `MM-DD` of an in-range month and day. */
  function MonthDayDigits(month: int, day: int): string
    requires 1 <= month <= 12 && 1 <= day <= 31
  {
    [DigitChar(month / 10), DigitChar(month % 10), '-', DigitChar(day / 10), DigitChar(day % 10)]
  }

  /** For an in-range month and day the key is the year field, a dash and exactly the five
      characters `MM-DD`. */
  lemma DateKeyShape(year: int, month: int, day: int)
    requires 1 <= month <= 12 && 1 <= day <= 31
    ensures DateKey(year, month, day) == (IntToString(year) + "-") + MonthDayDigits(month, day)
  {
    TwoDigitField(month);
    TwoDigitField(day);
    JoinFields(IntToString(year) + "-", PadStart2(IntToString(month)), PadStart2(IntToString(day)),
      DigitChar(month / 10), DigitChar(month % 10), DigitChar(day / 10), DigitChar(day % 10));
  }

  lemma JoinFields(p: string, mm: string, dd: string, m0: char, m1: char, d0: char, d1: char)
    requires mm == [m0, m1] && dd == [d0, d1]
    ensures p + (mm + "-" + dd) == p + [m0, m1, '-', d0, d1]
  {
  }

  /** The local date of "now": `getFullYear()`, `getMonth() + 1`, `getDate()`. */
  datatype Today = Today(year: int, month: int, day: int)

  /** `todayStr`, the key the current-day cell is matched against: the same
      `YYYY-MM-DD` layout as the cell keys. */
  function TodayKey(t: Today): (r: string)
    ensures 1 <= t.month <= 12 && 1 <= t.day <= 31 ==>
      r == (IntToString(t.year) + "-") + MonthDayDigits(t.month, t.day)
  {
    DateKeyShapeIf(t.year, t.month, t.day);
    DateKey(t.year, t.month, t.day)
  }

  /** DateKeyShape for any arguments, with the in-range condition moved into the conclusion. */
  lemma DateKeyShapeIf(year: int, month: int, day: int)
    ensures 1 <= month <= 12 && 1 <= day <= 31 ==>
      DateKey(year, month, day) == (IntToString(year) + "-") + MonthDayDigits(month, day)
  {
    if 1 <= month <= 12 && 1 <= day <= 31 {
      DateKeyShape(year, month, day);
    }
  }

  /** One line of a cell's tooltip after the leading date line. */
  datatype TipLine =
    | StatusLine(status: DayStatus)                  // the fixed rest / travel / sick line
    | TimeLine(start: string, end: string)           // start ~ end, '??:??' for a missing side
    | CategoryLine(categories: set<string>)          // the exercise category names

  /** What a cell shows under its day number. */
  datatype Display =
    | NoDisplay                                      // no record for the date
    | Glyph(status: DayStatus)                       // the fixed rest / travel / sick glyph
    | TimeLabels(start: Option<string>, end: Option<string>)  // only the set time labels

  datatype Cell = Cell(day: int, key: string, hasData: bool, isToday: bool, tooltip: seq<TipLine>, display: Display)

  datatype MonthGrid = MonthGrid(blanks: int, cells: seq<Cell>)

  /** The placeholder for a missing start or end time. */
  const UnknownTime: string := "??:??"

  /** `s || '??:??'`. */
  function TimeOrUnknown(s: Option<string>): string
  {
    if Truthy(s) then s.value else UnknownTime
  }

  /** A set time label, or none when the value is missing or empty. */
  function Label(s: Option<string>): Option<string>
  {
    if Truthy(s) then s else None
  }

  /** `log.dayStatus || 'workout'`: a record without status is a workout day. */
  function StatusOf(log: DailyLog): (r: DayStatus)
    ensures log.dayStatus.Some? ==> r == log.dayStatus.value
    ensures r != Workout ==> log.dayStatus == Some(r)
  {
    log.dayStatus.GetOr(Workout)
  }

  /** A workout record's tooltip has a time line: a start or an end time is set. */
  predicate HasTimeLine(log: DailyLog) {
    Truthy(log.startTime) || Truthy(log.endTime)
  }

  /** A workout record's tooltip has a category line: it has at least one category. */
  predicate HasCategoryLine(log: DailyLog) {
    log.exercises.Some? && |log.exercises.value| > 0
  }

  /** The tooltip lines of a record, keyed on its status. A workout record has the time line
      and the category line, each exactly when its condition holds, in that order, and no other. */
  function Tooltip(log: DailyLog): (lines: seq<TipLine>)
    ensures StatusOf(log) != Workout ==> lines == [StatusLine(StatusOf(log))]
    ensures StatusOf(log) == Workout ==>
      && |lines| == (if HasTimeLine(log) then 1 else 0) + (if HasCategoryLine(log) then 1 else 0)
      && ((TimeLine(TimeOrUnknown(log.startTime), TimeOrUnknown(log.endTime)) in lines) <==> HasTimeLine(log))
      && ((log.exercises.Some? && CategoryLine(log.exercises.value.Keys) in lines) <==> HasCategoryLine(log))
      && (forall l :: l in lines ==> !l.StatusLine?)
      && (forall l :: l in lines && l.TimeLine? ==>
            l == TimeLine(TimeOrUnknown(log.startTime), TimeOrUnknown(log.endTime)))
      && (forall l :: l in lines && l.CategoryLine? ==>
            log.exercises.Some? && l == CategoryLine(log.exercises.value.Keys))
      && (|lines| == 2 ==> lines[0].TimeLine? && lines[1].CategoryLine?)
  {
    match StatusOf(log)
    case Workout =>
      (if HasTimeLine(log)
       then [TimeLine(TimeOrUnknown(log.startTime), TimeOrUnknown(log.endTime))] else [])
      + (if HasCategoryLine(log) then [CategoryLine(log.exercises.value.Keys)] else [])
    case other => [StatusLine(other)]
  }

  /** What a record shows in its cell: the status glyph, or the set time labels of a workout. */
  function Shown(log: DailyLog): (r: Display)
    ensures StatusOf(log) != Workout ==> r == Glyph(StatusOf(log))
    ensures StatusOf(log) == Workout ==> r.TimeLabels?
    ensures r.TimeLabels? ==> (r.start.Some? <==> Truthy(log.startTime)) && (r.end.Some? <==> Truthy(log.endTime))
    ensures r.TimeLabels? && r.start.Some? ==> r.start == log.startTime
    ensures r.TimeLabels? && r.end.Some? ==> r.end == log.endTime
  {
    match StatusOf(log)
    case Workout => TimeLabels(Label(log.startTime), Label(log.endTime))
    case other => Glyph(other)
  }

  /** The cell of day `d` of month `month` (1 = January). */
  function RenderCell(year: int, month: int, d: int, data: CalendarData, todayKey: string): (c: Cell)
    ensures c.day == d && c.key == DateKey(year, month, d)
    ensures c.hasData <==> c.key in data
    ensures c.isToday <==> c.key == todayKey
    ensures !c.hasData ==> c.tooltip == [] && c.display == NoDisplay
    ensures c.hasData ==> c.tooltip == Tooltip(data[c.key]) && c.display == Shown(data[c.key])
  {
    var key := DateKey(year, month, d);
    if key in data then Cell(d, key, true, key == todayKey, Tooltip(data[key]), Shown(data[key]))
    else Cell(d, key, false, key == todayKey, [], NoDisplay)
  }

  /** The cells of days 1..n, in order (the `for d = 1 .. daysInMonth` loop); `cell` renders one day. */
  function DayCells(n: nat, cell: int -> Cell): seq<Cell>
  {
    seq(n, i requires 0 <= i < n => cell(i + 1))
  }

  /** Cell `i` of DayCells renders day `i + 1`. */
  lemma DayCellsIndex(n: nat, cell: int -> Cell)
    ensures |DayCells(n, cell)| == n
    ensures forall i :: 0 <= i < n ==> DayCells(n, cell)[i] == cell(i + 1)
  {
  }

  /** `new Date(year, monthIndex, 1).getDay()`: the weekday of the 1st, 0 = Sunday. */
  function FirstWeekday(year: int, monthIndex: int): (w: int)
    requires 0 <= monthIndex < 12
    ensures 0 <= w <= 6
  {
    Weekday(JsYear(year), monthIndex + 1, 1)
  }

  /** `new Date(year, monthIndex + 1, 0).getDate()`: the last day of the month. */
  function MonthLength(year: int, monthIndex: int): (n: int)
    requires 0 <= monthIndex < 12
    ensures 28 <= n <= 31
  {
    DaysInMonth(JsYear(year), monthIndex + 1)
  }

  /** `renderMonth(monthIndex)`: as many blanks as the weekday of the 1st, then one cell per day.
      The `Date` calls use `JsYear(year)`; the keys use `year` itself. */
  function RenderMonth(year: int, monthIndex: int, data: CalendarData, todayKey: string): (g: MonthGrid)
    requires 0 <= monthIndex < 12
    ensures 0 <= g.blanks <= 6
    ensures g.blanks == FirstWeekday(year, monthIndex)
    ensures |g.cells| == MonthLength(year, monthIndex)
    ensures forall i :: 0 <= i < |g.cells| ==> g.cells[i] == RenderCell(year, monthIndex + 1, i + 1, data, todayKey)
    ensures DayKeys(g.cells, year, monthIndex + 1)
  {
    var cell := d => RenderCell(year, monthIndex + 1, d, data, todayKey);
    DayCellsIndex(MonthLength(year, monthIndex), cell);
    MonthGrid(FirstWeekday(year, monthIndex), DayCells(MonthLength(year, monthIndex), cell))
  }

  /** The whole year view: twelve months. */
  function RenderYear(year: int, data: CalendarData, today: Today): (months: seq<MonthGrid>)
    ensures |months| == 12
    ensures forall m :: 0 <= m < 12 ==> months[m] == RenderMonth(year, m, data, TodayKey(today))
  {
    seq(12, m requires 0 <= m < 12 => RenderMonth(year, m, data, TodayKey(today)))
  }

  // ---------------------------------------------------------------------------------------
  // Properties of the date keys

  lemma {:induction false} MonthDayOrder(m1: int, d1: int, m2: int, d2: int)
    requires 1 <= m1 <= 12 && 1 <= d1 <= 31 && 1 <= m2 <= 12 && 1 <= d2 <= 31
    requires m1 < m2 || (m1 == m2 && d1 < d2)
    ensures Less(MonthDayDigits(m1, d1), MonthDayDigits(m2, d2))
  {
    var a, b := MonthDayDigits(m1, d1), MonthDayDigits(m2, d2);
    if m1 / 10 < m2 / 10 {
      LessAtFirstDifference(a, b, 0);
    } else if m1 / 10 == m2 / 10 && m1 % 10 < m2 % 10 {
      LessAtFirstDifference(a, b, 1);
    } else {
      assert m1 == m2;
      if d1 / 10 < d2 / 10 {
        LessAtFirstDifference(a, b, 3);
      } else {
        assert d1 / 10 == d2 / 10 && d1 % 10 < d2 % 10;
        LessAtFirstDifference(a, b, 4);
      }
    }
  }

  /** Within a year, date keys sort as the dates they name: by month, then by day. */
  lemma DateKeyOrder(year: int, m1: int, d1: int, m2: int, d2: int)
    requires 1 <= m1 <= 12 && 1 <= d1 <= 31 && 1 <= m2 <= 12 && 1 <= d2 <= 31
    requires m1 < m2 || (m1 == m2 && d1 < d2)
    ensures Less(DateKey(year, m1, d1), DateKey(year, m2, d2))
  {
    DateKeyShape(year, m1, d1);
    DateKeyShape(year, m2, d2);
    MonthDayOrder(m1, d1, m2, d2);
    LessPrefixed(IntToString(year) + "-", MonthDayDigits(m1, d1), MonthDayDigits(m2, d2));
  }

  /** Every cell of `a` has a key sorting before every cell of `b`. */
  predicate KeysBefore(a: seq<Cell>, b: seq<Cell>) {
    forall i, j :: 0 <= i < |a| && 0 <= j < |b| ==> Less(a[i].key, b[j].key)
  }

  /** The cells' keys strictly increase. */
  predicate KeysIncreasing(cells: seq<Cell>) {
    forall i, j :: 0 <= i < j < |cells| ==> Less(cells[i].key, cells[j].key)
  }

  /** The day cells of a month have strictly increasing keys. */
  lemma MonthKeysIncreasing(year: int, monthIndex: int, data: CalendarData, todayKey: string)
    requires 0 <= monthIndex < 12
    ensures KeysIncreasing(RenderMonth(year, monthIndex, data, todayKey).cells)
  {
    DayKeysIncreasing(RenderMonth(year, monthIndex, data, todayKey).cells, year, monthIndex + 1);
  }

  /** Cells keyed by the consecutive days of one month are in strictly increasing key order. */
  lemma DayKeysIncreasing(c: seq<Cell>, year: int, month: int)
    requires 1 <= month <= 12 && DayKeys(c, year, month)
    ensures KeysIncreasing(c)
  {
    forall d1, d2 | 1 <= d1 < d2 <= 31 ensures Less(DateKey(year, month, d1), DateKey(year, month, d2)) {
      DateKeyOrder(year, month, d1, month, d2);
    }
    IncreasingByDay(c, d => DateKey(year, month, d));
  }

  /** Cells keyed by day number are in key order when the keys of days 1..31 are. */
  lemma IncreasingByDay(c: seq<Cell>, key: int -> string)
    requires |c| <= 31
    requires forall i :: 0 <= i < |c| ==> c[i].key == key(i + 1)
    requires forall d1, d2 :: 1 <= d1 < d2 <= 31 ==> Less(key(d1), key(d2))
    ensures KeysIncreasing(c)
  {
    forall i, j | 0 <= i < j < |c| ensures Less(c[i].key, c[j].key) {
      assert c[i].key == key(i + 1) && c[j].key == key(j + 1);
    }
  }

  /** Cells whose keys are the date keys of days 1, 2, ... of `month`. */
  predicate DayKeys(cells: seq<Cell>, year: int, month: int) {
    && |cells| <= 31
    && forall i :: 0 <= i < |cells| ==> cells[i].key == DateKey(year, month, i + 1)
  }

  /** Every day key of an earlier month sorts before every day key of a later one. */
  lemma DayKeysBefore(c1: seq<Cell>, c2: seq<Cell>, year: int, m1: int, m2: int)
    requires 1 <= m1 < m2 <= 12
    requires DayKeys(c1, year, m1) && DayKeys(c2, year, m2)
    ensures KeysBefore(c1, c2)
  {
    forall d1, d2 | 1 <= d1 <= 31 && 1 <= d2 <= 31 ensures Less(DateKey(year, m1, d1), DateKey(year, m2, d2)) {
      DateKeyOrder(year, m1, d1, m2, d2);
    }
    BeforeByDay(c1, c2, d => DateKey(year, m1, d), d => DateKey(year, m2, d));
  }

  /** Two runs of cells keyed by day number are in key order when every day key of the first is. */
  lemma BeforeByDay(c1: seq<Cell>, c2: seq<Cell>, key1: int -> string, key2: int -> string)
    requires |c1| <= 31 && |c2| <= 31
    requires forall i :: 0 <= i < |c1| ==> c1[i].key == key1(i + 1)
    requires forall j :: 0 <= j < |c2| ==> c2[j].key == key2(j + 1)
    requires forall d1, d2 :: 1 <= d1 <= 31 && 1 <= d2 <= 31 ==> Less(key1(d1), key2(d2))
    ensures KeysBefore(c1, c2)
  {
    forall i, j | 0 <= i < |c1| && 0 <= j < |c2| ensures Less(c1[i].key, c2[j].key) {
      assert c1[i].key == key1(i + 1) && c2[j].key == key2(j + 1);
    }
  }

  /** Every key of an earlier month sorts before every key of a later one. */
  lemma MonthsInKeyOrder(year: int, m1: int, m2: int, data: CalendarData, todayKey: string)
    requires 0 <= m1 < m2 < 12
    ensures KeysBefore(RenderMonth(year, m1, data, todayKey).cells, RenderMonth(year, m2, data, todayKey).cells)
  {
    DayKeysBefore(RenderMonth(year, m1, data, todayKey).cells, RenderMonth(year, m2, data, todayKey).cells,
      year, m1 + 1, m2 + 1);
  }

  /** Each month's blanks continue from the previous month's blanks and days: laid end to end,
      the months of a year form one unbroken week grid. */
  lemma ConsecutiveMonthsAlign(year: int, m: int)
    requires 0 <= m < 11
    ensures FirstWeekday(year, m + 1) == (FirstWeekday(year, m) + MonthLength(year, m)) % 7
  {
    NextMonthWeekday(JsYear(year), m + 1);
  }

  /** Laid end to end, the twelve grids of the year view form one unbroken week grid. */
  lemma YearGridAligned(year: int, data: CalendarData, today: Today, m: int)
    requires 0 <= m < 11
    ensures var months := RenderYear(year, data, today);
      months[m + 1].blanks == (months[m].blanks + |months[m].cells|) % 7
  {
    var months := RenderYear(year, data, today);
    GridsAligned(months[m], months[m + 1], year, m);
  }

  /** Two grids with the blanks and day counts of months `m` and `m + 1` line up. */
  lemma GridsAligned(g: MonthGrid, next: MonthGrid, year: int, m: int)
    requires 0 <= m < 11
    requires g.blanks == FirstWeekday(year, m) && |g.cells| == MonthLength(year, m)
    requires next.blanks == FirstWeekday(year, m + 1)
    ensures next.blanks == (g.blanks + |g.cells|) % 7
  {
    ConsecutiveMonthsAlign(year, m);
  }

  /** In the year view, every key of an earlier month sorts before every key of a later one. */
  lemma YearInKeyOrder(year: int, data: CalendarData, today: Today, m1: int, m2: int)
    requires 0 <= m1 < m2 < 12
    ensures KeysBefore(RenderYear(year, data, today)[m1].cells, RenderYear(year, data, today)[m2].cells)
  {
    MonthsInKeyOrder(year, m1, m2, data, TodayKey(today));
  }

  /** For years 0 to 99 the grid takes its weekdays and month lengths from year 1900 + y,
      while the keys it writes still carry y itself. */
  lemma TwoDigitYearGrid(y: int, m: int, data: CalendarData, todayKey: string)
    requires 0 <= y <= 99 && 0 <= m < 12
    ensures FirstWeekday(y, m) == Weekday(1900 + y, m + 1, 1)
    ensures MonthLength(y, m) == DaysInMonth(1900 + y, m + 1)
    ensures RenderMonth(y, m, data, todayKey).cells[0].key == DateKey(y, m + 1, 1)
    ensures DateKey(y, m + 1, 1) != DateKey(1900 + y, m + 1, 1)
  {
    DateKeyInjective(y, m + 1, 1, 1900 + y, m + 1, 1);
  }

  /** Year 0 is a leap year, yet its February grid has 28 cells: `new Date(0, 2, 0)` is in 1900. */
  lemma YearZeroFebruary()
    ensures IsLeap(0) && DaysInMonth(0, 2) == 29
    ensures MonthLength(0, 1) == 28
  {
  }

  /** Keys of in-range dates are equal exactly for equal dates. */
  lemma DateKeyInjective(y1: int, m1: int, d1: int, y2: int, m2: int, d2: int)
    requires 1 <= m1 <= 12 && 1 <= d1 <= 31 && 1 <= m2 <= 12 && 1 <= d2 <= 31
    ensures DateKey(y1, m1, d1) == DateKey(y2, m2, d2) <==> y1 == y2 && m1 == m2 && d1 == d2
  {
    if DateKey(y1, m1, d1) == DateKey(y2, m2, d2) {
      DateKeyShape(y1, m1, d1);
      DateKeyShape(y2, m2, d2);
      SplitEqual(IntToString(y1) + "-", MonthDayDigits(m1, d1), IntToString(y2) + "-", MonthDayDigits(m2, d2));
      YearFieldInjective(y1, y2);
      MonthDayDigitsInjective(m1, d1, m2, d2);
    }
  }

  /** The year field, dash included, determines the year. */
  lemma YearFieldInjective(y1: int, y2: int)
    requires IntToString(y1) + "-" == IntToString(y2) + "-"
    ensures y1 == y2
  {
    var p1, p2 := IntToString(y1) + "-", IntToString(y2) + "-";
    assert IntToString(y1) == p1[..|p1| - 1] && IntToString(y2) == p2[..|p2| - 1];
    IntToStringInjective(y1, y2);
  }

  /** The `MM-DD` tail of an in-range date determines its month and day. */
  lemma MonthDayDigitsInjective(m1: int, d1: int, m2: int, d2: int)
    requires 1 <= m1 <= 12 && 1 <= d1 <= 31 && 1 <= m2 <= 12 && 1 <= d2 <= 31
    requires MonthDayDigits(m1, d1) == MonthDayDigits(m2, d2)
    ensures m1 == m2 && d1 == d2
  {
    var a, b := MonthDayDigits(m1, d1), MonthDayDigits(m2, d2);
    assert a[0] == b[0] && a[1] == b[1] && a[3] == b[3] && a[4] == b[4];
    DigitCharInjective(m1 / 10, m2 / 10);
    DigitCharInjective(m1 % 10, m2 % 10);
    DigitCharInjective(d1 / 10, d2 / 10);
    DigitCharInjective(d1 % 10, d2 % 10);
  }

  /** Equal concatenations with tails of equal length split into equal heads and equal tails. */
  lemma SplitEqual(p1: string, t1: string, p2: string, t2: string)
    requires p1 + t1 == p2 + t2 && |t1| == |t2|
    ensures p1 == p2 && t1 == t2
  {
    var k := p1 + t1;
    assert p1 == k[..|p1|] && p2 == k[..|p2|];
    assert t1 == k[|p1|..] && t2 == k[|p2|..];
  }

  /** Distinct decimal digits have distinct characters. */
  lemma DigitCharInjective(a: nat, b: nat)
    requires a < 10 && b < 10 && DigitChar(a) == DigitChar(b)
    ensures a == b
  {
  }

  /** A cell is the current day exactly when today is that date, whatever the data holds. */
  lemma IsTodayIff(year: int, month: int, d: int, data: CalendarData, today: Today)
    requires 1 <= month <= 12 && 1 <= d <= 31 && 1 <= today.month <= 12 && 1 <= today.day <= 31
    ensures RenderCell(year, month, d, data, TodayKey(today)).isToday <==> today == Today(year, month, d)
  {
    if DateKey(year, month, d) == TodayKey(today) {
      DateKeyInjective(year, month, d, today.year, today.month, today.day);
    }
  }

  /** A rest, travel or sick record shows its fixed glyph and line, whatever its other fields. */
  lemma StatusCellIgnoresDetails(a: DailyLog, b: DailyLog)
    requires StatusOf(a) == StatusOf(b) != Workout
    ensures Tooltip(a) == Tooltip(b) == [StatusLine(StatusOf(a))]
    ensures Shown(a) == Shown(b) == Glyph(StatusOf(a))
  {
  }
}
