/** The stats projection: the year's body-metric series, one point per charted date. */
module StatsView {
  import opened Wrappers
  import opened Types
  import opened Lex
  import opened KeyOrder
  import Text
  import YearCalendar

  /** One chart point: the `MM-DD` label and the three values, `None` standing for `null`. */
  datatype Point = Point(date: string, weight: Option<real>, muscle: Option<real>, fat: Option<real>)

  /** `key.substring(5)`: the key without its first five characters (`MM-DD` for `YYYY-MM-DD`). */
  function DateLabel(key: string): string
  {
    if |key| >= 5 then key[5..] else ""
  }

  /** `value || null`: zero counts as no value. */
  function OrNull(v: real): Option<real>
  {
    if v == 0.0 then None else Some(v)
  }

  /** `log.metrics?.<field> || null`. */
  function MetricOf(m: Option<BodyMetrics>, pick: BodyMetrics -> real): (r: Option<real>)
    ensures r.None? <==> m.None? || pick(m.value) == 0.0
    ensures r.Some? ==> r.value == pick(m.value)
  {
    match m
    case None => None
    case Some(b) => OrNull(pick(b))
  }

  /** The point a record contributes under its key. */
  function PointOf(key: string, log: DailyLog): (p: Point)
    ensures p.date == DateLabel(key)
    ensures p.weight.None? <==> log.metrics.None? || log.metrics.value.weight == 0.0
    ensures p.muscle.None? <==> log.metrics.None? || log.metrics.value.muscleMass == 0.0
    ensures p.fat.None? <==> log.metrics.None? || log.metrics.value.bodyFatPercent == 0.0
    ensures p.weight.Some? ==> p.weight.value == log.metrics.value.weight
    ensures p.muscle.Some? ==> p.muscle.value == log.metrics.value.muscleMass
    ensures p.fat.Some? ==> p.fat.value == log.metrics.value.bodyFatPercent
  {
    Point(
      DateLabel(key),
      MetricOf(log.metrics, (b: BodyMetrics) => b.weight),
      MetricOf(log.metrics, (b: BodyMetrics) => b.muscleMass),
      MetricOf(log.metrics, (b: BodyMetrics) => b.bodyFatPercent))
  }

  /** `item.weight || item.muscle || item.fat`: the point has something to plot. */
  predicate Charted(p: Point) {
    p.weight.Some? || p.muscle.Some? || p.fat.Some?
  }

  /** A record has something to plot exactly when it carries a reading with a non-zero value. */
  lemma ChartedIff(key: string, log: DailyLog)
    ensures Charted(PointOf(key, log)) <==>
      log.metrics.Some? &&
      (log.metrics.value.weight != 0.0 || log.metrics.value.muscleMass != 0.0 || log.metrics.value.bodyFatPercent != 0.0)
  {
  }

  /** `yearDates.map(...)`: one point per key, in the same order. */
  function ToPoints(keys: seq<string>, data: CalendarData): (ps: seq<Point>)
    requires forall k :: k in keys ==> k in data
    ensures |ps| == |keys|
    ensures forall i :: 0 <= i < |keys| ==> ps[i] == PointOf(keys[i], data[keys[i]])
  {
    if |keys| == 0 then [] else [PointOf(keys[0], data[keys[0]])] + ToPoints(keys[1..], data)
  }

  /** `.filter(item => item.weight || item.muscle || item.fat)`. */
  function KeepCharted(ps: seq<Point>): (r: seq<Point>)
    ensures |r| <= |ps|
    ensures forall p :: p in r <==> p in ps && Charted(p)
  {
    if |ps| == 0 then []
    else if Charted(ps[0]) then [ps[0]] + KeepCharted(ps[1..])
    else KeepCharted(ps[1..])
  }

  /** `chartData`: sort all keys, keep those starting with `String(year)`, map each to its
      point, and drop the points with nothing to plot. */
  function ChartData(year: int, data: CalendarData): (r: seq<Point>)
    ensures forall i :: 0 <= i < |r| ==> Charted(r[i])
  {
    var yearDates := Filter(SortedKeys(data.Keys), k => InYear(year, k));
    KeepCharted(ToPoints(yearDates, data))
  }

  /** `key.startsWith(String(year))`: a prefix test, not a parse of the year. */
  predicate InYear(year: int, key: string)
    ensures InYear(year, key) <==>
      && |Text.IntToString(year)| <= |key|
      && forall i :: 0 <= i < |Text.IntToString(year)| ==> key[i] == Text.IntToString(year)[i]
  {
    IsPrefix(Text.IntToString(year), key)
  }

  /** Every date key of a year passes that year's filter. */
  lemma DateKeyInYear(year: int, month: int, day: int)
    requires 1 <= month <= 12 && 1 <= day <= 31
    ensures InYear(year, YearCalendar.DateKey(year, month, day))
  {
    YearCalendar.DateKeyPrefix(year, month, day);
  }

  /** Between years written with equally many characters, the filter is exact on date keys. */
  lemma InYearSameWidth(year: int, other: int, month: int, day: int)
    requires 1 <= month <= 12 && 1 <= day <= 31
    requires |Text.IntToString(year)| == |Text.IntToString(other)|
    ensures InYear(year, YearCalendar.DateKey(other, month, day)) <==> year == other
  {
    var key := YearCalendar.DateKey(other, month, day);
    var n := |Text.IntToString(year)|;
    YearCalendar.DateKeyPrefix(other, month, day);
    if InYear(year, key) {
      assert key[..n] == Text.IntToString(other);
      Text.IntToStringInjective(year, other);
    }
  }

  /** Being a prefix test, the filter of year 202 also lets through the keys of 2024. */
  lemma InYearIsPrefixTest()
    ensures InYear(202, YearCalendar.DateKey(2024, 1, 1))
  {
    assert Text.IntToString(202) == "202" && Text.IntToString(2024) == "2024";
    YearCalendar.DateKeyPrefix(2024, 1, 1);
  }

  /** The key's record has something to plot. */
  predicate ChartedKey(data: CalendarData, key: string) {
    key in data && Charted(PointOf(key, data[key]))
  }

  /** The keys that end up on the chart: those with the year's prefix and something to plot. */
  function ChartKeySet(year: int, data: CalendarData): set<string>
  {
    set k | k in data && InYear(year, k) && ChartedKey(data, k)
  }

  /** Dropping uncharted points is dropping their keys first. */
  lemma {:induction false} KeepChartedPoints(keys: seq<string>, data: CalendarData)
    requires forall k :: k in keys ==> k in data
    ensures KeepCharted(ToPoints(keys, data)) == ToPoints(Filter(keys, k => ChartedKey(data, k)), data)
  {
    if |keys| > 0 {
      var head := PointOf(keys[0], data[keys[0]]);
      var tail := Filter(keys[1..], k => ChartedKey(data, k));
      KeepChartedPoints(keys[1..], data);
      assert ToPoints(keys, data) == [head] + ToPoints(keys[1..], data);
      assert Charted(head) == ChartedKey(data, keys[0]);
      if ChartedKey(data, keys[0]) {
        assert Filter(keys, k => ChartedKey(data, k)) == [keys[0]] + tail;
      } else {
        assert Filter(keys, k => ChartedKey(data, k)) == tail;
      }
    }
  }

  /** The chart is exactly one point per charted key of the year, in ascending key order:
      the result equals mapping `PointOf` over the sorted charted keys. */
  lemma ChartDataIsSortedProjection(year: int, data: CalendarData)
    ensures ChartData(year, data) == ToPoints(SortedKeys(ChartKeySet(year, data)), data)
  {
    var yearKeys := YearKeySet(year, data);
    var yearDates := Filter(SortedKeys(data.Keys), k => InYear(year, k));
    FilterSortedKeys(data.Keys, k => InYear(year, k), yearKeys);
    var charted := Filter(yearDates, k => ChartedKey(data, k));
    KeepChartedPoints(yearDates, data);
    FilterSortedKeys(yearKeys, k => ChartedKey(data, k), ChartKeySet(year, data));
  }

  /** The keys with the year's prefix. */
  function YearKeySet(year: int, data: CalendarData): set<string>
  {
    set k | k in data && InYear(year, k)
  }

  /** At most one point per key with the year's prefix. */
  lemma ChartDataBound(year: int, data: CalendarData)
    ensures |ChartData(year, data)| <= |YearKeySet(year, data)|
  {
    ChartDataIsSortedProjection(year, data);
    var yearKeys := YearKeySet(year, data);
    assert ChartKeySet(year, data) <= yearKeys;
    assert |ChartKeySet(year, data)| <= |yearKeys| by {
      SubsetSize(ChartKeySet(year, data), yearKeys);
    }
  }

  lemma SubsetSize(a: set<string>, b: set<string>)
    requires a <= b
    ensures |a| <= |b|
  {
    assert b == a + (b - a);
  }
}
