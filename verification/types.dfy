/** The data contract shared by every component: one `DailyLog` per date key. */
module Types {
  import opened Wrappers

  /** The four-way classification of a day. */
  datatype DayStatus = Workout | Rest | Travel | Sick

  /** A body-metrics reading: all three values together, or no reading at all.
      Values are abstract reals; only whether a value is zero ever matters. */
  datatype BodyMetrics = BodyMetrics(weight: real, muscleMass: real, bodyFatPercent: real)

  /** Exercise category name to the detail items chosen under it. */
  type Exercises = map<string, seq<string>>

  /** One calendar date's record; every field but `date` is optional. */
  datatype DailyLog = DailyLog(
    date: string,
    metrics: Option<BodyMetrics>,
    startTime: Option<string>,
    endTime: Option<string>,
    dayStatus: Option<DayStatus>,
    exercises: Option<Exercises>)

  /** The whole store: date key (canonically `YYYY-MM-DD`) to that date's record. */
  type CalendarData = map<string, DailyLog>

  /** JavaScript truthiness of an optional string: present and non-empty. */
  predicate Truthy(s: Option<string>) {
    s.Some? && s.value != ""
  }
}
