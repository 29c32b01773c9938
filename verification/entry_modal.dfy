/** The entry editor: a draft for one date, the toggle operations on its exercise map,
    and the assembly of a `DailyLog` on save. */
module EntryModal {
  import opened Wrappers
  import opened Types
  import Text

  /** The editor's state. Metric inputs are kept as the raw text typed. */
  datatype Draft = Draft(
    date: string,
    weight: string,
    muscle: string,
    fat: string,
    dayStatus: DayStatus,
    startTime: string,
    endTime: string,
    exercises: Exercises,
    customInputs: map<string, string>)

  /** The text a metric input starts with: `toString()` of the stored value, else empty. */
  function MetricText(m: Option<BodyMetrics>, pick: BodyMetrics -> real, show: real -> string): string
  {
    match m
    case Some(b) => show(pick(b))
    case None => ""
  }

  /** The draft an editor opens with. `show` stands for `Number.prototype.toString`. */
  function InitDraft(date: string, initial: Option<DailyLog>, show: real -> string): (d: Draft)
    ensures d.date == date && d.customInputs == map[]
    ensures initial.None? ==> d.dayStatus == Workout && d.exercises == map[]
    ensures initial.None? ==> d.weight == d.muscle == d.fat == d.startTime == d.endTime == ""
    ensures initial.Some? && initial.value.dayStatus.Some? ==> d.dayStatus == initial.value.dayStatus.value
    ensures initial.Some? && initial.value.dayStatus.None? ==> d.dayStatus == Workout
    ensures initial.Some? && initial.value.exercises.Some? ==> d.exercises == initial.value.exercises.value
    ensures initial.Some? && initial.value.exercises.None? ==> d.exercises == map[]
    ensures initial.Some? ==>
      && d.startTime == initial.value.startTime.GetOr("")
      && d.endTime == initial.value.endTime.GetOr("")
    ensures initial.Some? && initial.value.metrics.None? ==> d.weight == d.muscle == d.fat == ""
    ensures initial.Some? && initial.value.metrics.Some? ==>
      && d.weight == show(initial.value.metrics.value.weight)
      && d.muscle == show(initial.value.metrics.value.muscleMass)
      && d.fat == show(initial.value.metrics.value.bodyFatPercent)
  {
    match initial
    case None => Draft(date, "", "", "", Workout, "", "", map[], map[])
    case Some(log) =>
      Draft(
        date,
        MetricText(log.metrics, (b: BodyMetrics) => b.weight, show),
        MetricText(log.metrics, (b: BodyMetrics) => b.muscleMass, show),
        MetricText(log.metrics, (b: BodyMetrics) => b.bodyFatPercent, show),
        log.dayStatus.GetOr(Workout),
        log.startTime.GetOr(""),
        log.endTime.GetOr(""),
        log.exercises.GetOr(map[]),
        map[])
  }

  /** `toggleCategory`: a present category is removed with all its details (an empty
      list is still present); an absent one is added with no details. */
  function ToggleCategory(ex: Exercises, cat: string): (r: Exercises)
    ensures cat in r <==> cat !in ex
    ensures cat in r ==> r[cat] == []
    ensures forall c :: c != cat ==> (c in r <==> c in ex)
    ensures forall c :: c != cat && c in ex ==> r[c] == ex[c]
  {
    if cat in ex then ex - {cat} else ex[cat := []]
  }

  /** Toggling an absent category on and off again restores the map. */
  lemma ToggleCategoryTwice(ex: Exercises, cat: string)
    requires cat !in ex
    ensures ToggleCategory(ToggleCategory(ex, cat), cat) == ex
  {
  }

  /** Toggling a present category off and on again leaves it with no details. */
  lemma ToggleCategoryDiscards(ex: Exercises, cat: string)
    requires cat in ex
    ensures ToggleCategory(ToggleCategory(ex, cat), cat) == ex[cat := []]
  {
  }

  /** `items.filter(i => i !== x)`: every occurrence of `x` dropped, the rest in order. */
  function RemoveAll(items: seq<string>, x: string): (r: seq<string>)
    ensures x !in r
    ensures forall y :: y != x ==> multiset(r)[y] == multiset(items)[y]
    ensures x !in items ==> r == items
  {
    if |items| == 0 then []
    else
      var rest := RemoveAll(items[1..], x);
      assert items == [items[0]] + items[1..];
      if items[0] == x then rest else [items[0]] + rest
  }

  /** `filter` distributes over concatenation: what it keeps of each part stays in place. */
  lemma {:induction false} RemoveAllConcat(a: seq<string>, b: seq<string>, x: string)
    ensures RemoveAll(a + b, x) == RemoveAll(a, x) + RemoveAll(b, x)
  {
    if |a| > 0 {
      assert (a + b)[0] == a[0];
      assert (a + b)[1..] == a[1..] + b;
      RemoveAllConcat(a[1..], b, x);
    } else {
      assert a + b == b;
    }
  }

  /** On a single element `filter` keeps it exactly when it differs from the item. */
  lemma RemoveAllSingleton(y: string, x: string)
    ensures RemoveAll([y], x) == if y == x then [] else [y]
  {
  }

  /** The detail list of a category, or the empty list when it is absent (`prev[c] || []`). */
  function DetailsOf(ex: Exercises, cat: string): seq<string>
  {
    if cat in ex then ex[cat] else []
  }

  /** `toggleDetail`: a present item is removed everywhere in the list, an absent one appended;
      the category is created if missing and no other category changes. */
  function ToggleDetail(ex: Exercises, cat: string, item: string): (r: Exercises)
    ensures r.Keys == ex.Keys + {cat}
    ensures forall c :: c in ex && c != cat ==> r[c] == ex[c]
    ensures item in r[cat] <==> item !in DetailsOf(ex, cat)
    ensures item !in DetailsOf(ex, cat) ==> r[cat] == DetailsOf(ex, cat) + [item]
    ensures item in DetailsOf(ex, cat) ==> forall y :: y != item ==> multiset(r[cat])[y] == multiset(DetailsOf(ex, cat))[y]
  {
    var current := DetailsOf(ex, cat);
    ex[cat := if item in current then RemoveAll(current, item) else current + [item]]
  }

  /** Unticking an item that occurs once removes it in place: the items before it and the
      items after it keep their order. */
  lemma ToggleDetailRemovesInPlace(ex: Exercises, cat: string, before: seq<string>, item: string, after: seq<string>)
    requires DetailsOf(ex, cat) == before + [item] + after
    requires item !in before && item !in after
    ensures ToggleDetail(ex, cat, item)[cat] == before + after
  {
    assert item in DetailsOf(ex, cat);
    RemoveAllConcat(before + [item], after, item);
    RemoveAllConcat(before, [item], item);
    RemoveAllSingleton(item, item);
    assert RemoveAll(before + [item], item) == before;
  }

  /** No element occurs twice. */
  predicate NoDuplicates(s: seq<string>) {
    forall i, j :: 0 <= i < j < |s| ==> s[i] != s[j]
  }

  /** Removing every copy of an item keeps a duplicate-free list duplicate-free. */
  lemma {:induction false} RemoveAllKeepsNoDuplicates(items: seq<string>, x: string)
    requires NoDuplicates(items)
    ensures NoDuplicates(RemoveAll(items, x))
  {
    if |items| > 0 {
      var head, tail := items[0], items[1..];
      RemoveAllKeepsNoDuplicates(tail, x);
      assert head !in tail by {
        forall j | 0 <= j < |tail| ensures tail[j] != head {
          assert tail[j] == items[j + 1];
        }
      }
      if head != x {
        assert multiset(RemoveAll(tail, x))[head] == multiset(tail)[head] == 0;
      }
    }
  }

  /** A category without duplicate items keeps that property under `toggleDetail`. */
  lemma ToggleDetailKeepsNoDuplicates(ex: Exercises, cat: string, item: string)
    requires NoDuplicates(DetailsOf(ex, cat))
    ensures NoDuplicates(ToggleDetail(ex, cat, item)[cat])
  {
    if item in DetailsOf(ex, cat) {
      RemoveAllKeepsNoDuplicates(DetailsOf(ex, cat), item);
    }
  }

  /** In a category that is present, toggling an absent item on and off again restores the map. */
  lemma ToggleDetailTwice(ex: Exercises, cat: string, item: string)
    requires cat in ex && item !in ex[cat]
    ensures ToggleDetail(ToggleDetail(ex, cat, item), cat, item) == ex
  {
    var once := ToggleDetail(ex, cat, item);
    RemoveAppended(ex[cat], item);
    assert once[cat := RemoveAll(ex[cat] + [item], item)] == ex;
  }

  /** In a missing category, toggling an item on and off again leaves the category behind, empty. */
  lemma ToggleDetailTwiceCreates(ex: Exercises, cat: string, item: string)
    requires cat !in ex
    ensures ToggleDetail(ToggleDetail(ex, cat, item), cat, item) == ex[cat := []]
  {
    var once := ToggleDetail(ex, cat, item);
    assert once[cat] == [item];
    RemoveAllSingleton(item, item);
    assert ToggleDetail(once, cat, item) == once[cat := []];
  }

  /** Toggling an item off that was just appended to a list lacking it gives the list back. */
  lemma {:induction false} RemoveAppended(items: seq<string>, x: string)
    requires x !in items
    ensures RemoveAll(items + [x], x) == items
  {
    if |items| > 0 {
      assert (items + [x])[1..] == items[1..] + [x];
      RemoveAppended(items[1..], x);
    }
  }

  /** `addCustomItem`: the trimmed scratch text for `cat`, if any, is toggled as a detail
      (so an existing item is removed) and the scratch is cleared. */
  function AddCustomItem(d: Draft, cat: string): (r: Draft)
    ensures cat !in d.customInputs ==> r == d
    ensures cat in d.customInputs && Text.Trim(d.customInputs[cat]) == "" ==> r == d
    ensures cat in d.customInputs && Text.Trim(d.customInputs[cat]) != "" ==>
      && r.exercises == ToggleDetail(d.exercises, cat, Text.Trim(d.customInputs[cat]))
      && r.customInputs == d.customInputs[cat := ""]
      && r.(exercises := d.exercises, customInputs := d.customInputs) == d
  {
    if cat !in d.customInputs then d
    else
      var val := Text.Trim(d.customInputs[cat]);
      if val == "" then d
      else d.(exercises := ToggleDetail(d.exercises, cat, val), customInputs := d.customInputs[cat := ""])
  }

  /** A whitespace-only scratch text adds nothing. */
  lemma AddCustomItemBlank(d: Draft, cat: string)
    requires cat in d.customInputs
    requires forall i :: 0 <= i < |d.customInputs[cat]| ==> Text.IsSpace(d.customInputs[cat][i])
    ensures AddCustomItem(d, cat) == d
  {
    Text.TrimEmptyIff(d.customInputs[cat]);
  }

  /** Because the add goes through `toggleDetail`, "adding" an item already listed removes
      it; the rest of the category's list keeps its items. */
  lemma AddCustomItemRemovesExisting(d: Draft, cat: string)
    requires cat in d.customInputs && Text.Trim(d.customInputs[cat]) != ""
    requires Text.Trim(d.customInputs[cat]) in DetailsOf(d.exercises, cat)
    ensures Text.Trim(d.customInputs[cat]) !in AddCustomItem(d, cat).exercises[cat]
    ensures forall y :: y != Text.Trim(d.customInputs[cat]) ==>
      multiset(AddCustomItem(d, cat).exercises[cat])[y] == multiset(DetailsOf(d.exercises, cat))[y]
    ensures AddCustomItem(d, cat).customInputs[cat] == ""
  {
  }

  /** `parseFloat(s) || 0`: `None` stands for NaN; NaN and zero both become 0. */
  function ParseOr0(p: Option<real>): real
  {
    match p
    case Some(x) => x
    case None => 0.0
  }

  /** `handleSave`: the record the editor commits. `parse` stands for `parseFloat`. */
  function HandleSave(d: Draft, parse: string -> Option<real>): (log: DailyLog)
    ensures log.date == d.date
    ensures log.startTime == Some(d.startTime) && log.endTime == Some(d.endTime)
    ensures log.dayStatus == Some(d.dayStatus)
    ensures d.dayStatus == Workout ==> log.exercises == Some(d.exercises)
    ensures d.dayStatus != Workout ==> log.exercises == Some(map[])
    ensures log.metrics.Some? <==> (d.weight != "" || d.muscle != "" || d.fat != "")
    ensures log.metrics.Some? ==>
      && log.metrics.value.weight == ParseOr0(parse(d.weight))
      && log.metrics.value.muscleMass == ParseOr0(parse(d.muscle))
      && log.metrics.value.bodyFatPercent == ParseOr0(parse(d.fat))
  {
    var metrics :=
      if d.weight != "" || d.muscle != "" || d.fat != "" then
        Some(BodyMetrics(ParseOr0(parse(d.weight)), ParseOr0(parse(d.muscle)), ParseOr0(parse(d.fat))))
      else None;
    DailyLog(
      d.date,
      metrics,
      Some(d.startTime),
      Some(d.endTime),
      Some(d.dayStatus),
      Some(if d.dayStatus == Workout then d.exercises else map[]))
  }

  /** A blank metric input is stored as 0 when another input is filled (`parseFloat('')` is NaN). */
  lemma BlankMetricIsZero(d: Draft, parse: string -> Option<real>)
    requires parse("") == None
    requires d.weight == "" && (d.muscle != "" || d.fat != "")
    ensures HandleSave(d, parse).metrics.Some?
    ensures HandleSave(d, parse).metrics.value.weight == 0.0
  {
  }

  /** The shape of every record the editor commits: all optional fields present, and no
      exercises unless the day is a workout day. */
  predicate Committed(log: DailyLog) {
    && log.dayStatus.Some? && log.startTime.Some? && log.endTime.Some? && log.exercises.Some?
    && (log.dayStatus.value != Workout ==> log.exercises.value == map[])
  }

  /** Opening a committed record in the editor and saving it unchanged reproduces it,
      provided `parseFloat` reads back what `toString` printed. */
  lemma ReopenAndSave(log: DailyLog, show: real -> string, parse: string -> Option<real>)
    requires Committed(log)
    requires log.metrics.Some? ==>
      && show(log.metrics.value.weight) != "" && parse(show(log.metrics.value.weight)) == Some(log.metrics.value.weight)
      && parse(show(log.metrics.value.muscleMass)) == Some(log.metrics.value.muscleMass)
      && parse(show(log.metrics.value.bodyFatPercent)) == Some(log.metrics.value.bodyFatPercent)
    ensures HandleSave(InitDraft(log.date, Some(log), show), parse) == log
  {
  }
}
