/** The log store: one persistent slot holding the serialised `CalendarData`.
    The browser environment is a value: whether a window exists, and what the slot holds. */
module Storage {
  import opened Wrappers
  import opened Types

  /** What `localStorage.getItem` returned, as `JSON.parse` will see it. */
  datatype Stored =
    | Blank                       // the empty string: falsy, never parsed
    | Unparseable                 // `JSON.parse` throws
    | Json(data: CalendarData)    // parses to this mapping

  /** The browser as the store sees it; `slot == None` is a missing key. */
  datatype Env = Env(hasWindow: bool, slot: Option<Stored>)

  /** Referencing `localStorage` outside a browser throws. */
  datatype StoreError = NoLocalStorage

  /** The state after a save, and the mapping `saveDailyLog` returns. */
  datatype Saved = Saved(env: Env, data: CalendarData)

  /** The slot held parseable data (the only case in which a load is not empty by fallback). */
  predicate HoldsJson(env: Env) {
    env.hasWindow && env.slot.Some? && env.slot.value.Json?
  }

  /** `getCalendarData`: the parsed slot, or the empty mapping when there is no window,
      no slot, an empty slot or a parse failure. It never fails. */
  function Load(env: Env): (r: CalendarData)
    ensures HoldsJson(env) ==> r == env.slot.value.data
    ensures !HoldsJson(env) ==> r == map[]
  {
    if !env.hasWindow then map[]
    else match env.slot
      case None => map[]
      case Some(Blank) => map[]
      case Some(Unparseable) => map[]
      case Some(Json(d)) => d
  }

  /** `saveDailyLog`: load, overwrite the entry at `log.date` with the whole record,
      persist the updated mapping and return it. */
  function Save(env: Env, log: DailyLog): (r: Result<Saved, StoreError>)
    ensures r.Failure? <==> !env.hasWindow
    ensures r.Success? ==> log.date in r.value.data && r.value.data[log.date] == log
    ensures r.Success? ==> r.value.data.Keys == Load(env).Keys + {log.date}
    ensures r.Success? ==> forall d :: d in Load(env) && d != log.date ==> r.value.data[d] == Load(env)[d]
    ensures r.Success? ==> Load(r.value.env) == r.value.data
  {
    if !env.hasWindow then Failure(NoLocalStorage)
    else
      var updated := Load(env)[log.date := log];
      Success(Saved(Env(true, Some(Json(updated))), updated))
  }

  /** `getLogByDate`: the stored record, or `None` (JavaScript `null`) when the key is missing. */
  function GetByDate(env: Env, date: string): (r: Option<DailyLog>)
    ensures r.Some? <==> date in Load(env)
    ensures r.Some? ==> r.value == Load(env)[date]
  {
    var data := Load(env);
    if date in data then Some(data[date]) else None
  }

  /** Write/read round trip: after a save, looking up its date yields exactly the saved record. */
  lemma SaveThenGet(env: Env, log: DailyLog)
    requires env.hasWindow
    ensures Save(env, log).Success?
    ensures GetByDate(Save(env, log).value.env, log.date) == Some(log)
  {
  }

  /** Saving the same record twice leaves the same state and returns the same mapping as once. */
  lemma SaveIdempotent(env: Env, log: DailyLog)
    requires env.hasWindow
    ensures Save(Save(env, log).value.env, log) == Save(env, log)
  {
    var once := Save(env, log).value;
    assert Load(once.env)[log.date := log] == once.data;
  }

  /** A re-save replaces the record whole: the first record leaves no trace. */
  lemma SaveReplacesRecord(env: Env, first: DailyLog, second: DailyLog)
    requires env.hasWindow && first.date == second.date
    ensures Save(Save(env, first).value.env, second) == Save(env, second)
  {
    var a := Save(env, first).value;
    assert a.data[second.date := second] == Load(env)[second.date := second];
  }

  /** Saves of different dates commute. */
  lemma SavesCommute(env: Env, a: DailyLog, b: DailyLog)
    requires env.hasWindow && a.date != b.date
    ensures Save(Save(env, a).value.env, b) == Save(Save(env, b).value.env, a)
  {
    var ab := Load(env)[a.date := a][b.date := b];
    var ba := Load(env)[b.date := b][a.date := a];
    assert ab == ba;
  }

  /** A load with nothing parseable in the slot is empty, and so is a lookup in it. */
  lemma LoadFallback(env: Env, date: string)
    requires !env.hasWindow || env.slot.None? || env.slot == Some(Blank) || env.slot == Some(Unparseable)
    ensures Load(env) == map[]
    ensures GetByDate(env, date) == None
  {
  }
}
