/**
 * The calendar data the application shell assembles: a colour per
 * category label, the per-day aggregation of a month's entries (which
 * categories had a notable value on each day, and the display spelling of
 * each category), the days that qualify for the calendar (both an
 * observation and a symptom were notable), and the merge of newly seen
 * category labels into the ones already known.
 */
module AppCalendar {
  import opened Text
  import opened Ordering
  import Calendar
  import Api
  import NotableValues
  import opened Wrappers

  // ---- category colours ----

  const Palette: seq<string> := ["#2563eb", "#dc2626", "#0ea5e9", "#f59e0b", "#10b981", "#8b5cf6", "#f97316", "#9333ea"]

  /** The colours of a key list in its order: the key at position i gets palette colour i modulo 8. */
  function ColorsOf(keys: seq<string>): map<string, string>
    decreases |keys|
  {
    if |keys| == 0 then map[]
    else ColorsOf(keys[..|keys| - 1])[keys[|keys| - 1] := Palette[(|keys| - 1) % |Palette|]]
  }

  /**
   * `categoryColors`: the keys of the label record, sorted in code-unit
   * order, coloured in turn from the palette.
   */
  method CategoryColors(labelKeys: seq<string>) returns (colors: map<string, string>)
    ensures colors == ColorsOf(SortBy(labelKeys, CodeLeq))
  {
    var keys := SortBy(labelKeys, CodeLeq);
    colors := map[];
    for index := 0 to |keys|
      invariant colors == ColorsOf(keys[..index])
    {
      assert keys[..index + 1][..index] == keys[..index];
      colors := colors[keys[index] := Palette[index % |Palette|]];
    }
    assert keys[..|keys|] == keys;
  }

  /** Exactly the listed keys are coloured. */
  lemma {:induction false} ColorsOfKeys(keys: seq<string>, k: string)
    ensures k in ColorsOf(keys) <==> k in keys
    decreases |keys|
  {
    if |keys| > 0 {
      var init := keys[..|keys| - 1];
      ColorsOfKeys(init, k);
      assert keys == init + [keys[|keys| - 1]];
    }
  }

  /** A key that does not occur again later keeps the colour of its position. */
  lemma {:induction false} ColorsOfAt(keys: seq<string>, i: int)
    requires 0 <= i < |keys|
    requires forall j :: i < j < |keys| ==> keys[j] != keys[i]
    ensures keys[i] in ColorsOf(keys) && ColorsOf(keys)[keys[i]] == Palette[i % |Palette|]
    decreases |keys|
  {
    if i < |keys| - 1 {
      var init := keys[..|keys| - 1];
      assert init[i] == keys[i];
      forall j | i < j < |init|
        ensures init[j] != init[i]
      {
        assert init[j] == keys[j];
      }
      ColorsOfAt(init, i);
    }
  }

  /** The eight palette colours differ from each other. */
  lemma PaletteDistinct(a: int, b: int)
    requires 0 <= a < |Palette| && 0 <= b < |Palette|
    ensures Palette[a] == Palette[b] <==> a == b
  {
    if a != b {
      assert Palette[a][1..3] != Palette[b][1..3] || Palette[a][3..] != Palette[b][3..];
    }
  }

  /**
   * Each label gets a colour and nothing else does; the label at position
   * i of the sorted keys gets palette colour i modulo 8, so two labels
   * share a colour exactly when their sorted positions are a multiple of 8
   * apart.
   */
  lemma CategoryColorsSpec(labelKeys: seq<string>, i: int, j: int)
    requires Distinct(labelKeys)
    requires 0 <= i < |labelKeys| && 0 <= j < |labelKeys|
    ensures var sorted := SortBy(labelKeys, CodeLeq);
      var colors := ColorsOf(sorted);
      && SortedBy(sorted, CodeLeq)
      && (forall k :: k in colors <==> k in labelKeys)
      && sorted[i] in colors && colors[sorted[i]] == Palette[i % 8]
      && sorted[j] in colors
      && (colors[sorted[i]] == colors[sorted[j]] <==> i % 8 == j % 8)
  {
    var sorted := SortBy(labelKeys, CodeLeq);
    CodeLeqTotalPreorder();
    SortBySorted(labelKeys, CodeLeq);
    SortByDistinct(labelKeys, CodeLeq);
    forall k
      ensures k in ColorsOf(sorted) <==> k in labelKeys
    {
      ColorsOfKeys(sorted, k);
      assert k in sorted <==> k in multiset(sorted);
    }
    ColorsOfAt(sorted, i);
    ColorsOfAt(sorted, j);
    PaletteDistinct(i % 8, j % 8);
  }

  /** The colours do not depend on the order in which the label keys are enumerated. */
  lemma ColorsIgnoreKeyOrder(labelKeys: seq<string>, otherOrder: seq<string>)
    requires Distinct(labelKeys) && Distinct(otherOrder)
    requires forall k :: k in labelKeys <==> k in otherOrder
    ensures ColorsOf(SortBy(otherOrder, CodeLeq)) == ColorsOf(SortBy(labelKeys, CodeLeq))
  {
    CodeLeqTotalPreorder();
    SortBySorted(labelKeys, CodeLeq);
    SortBySorted(otherOrder, CodeLeq);
    SameElementsPermutation(labelKeys, otherOrder);
    SortedCodeUnique(SortBy(otherOrder, CodeLeq), SortBy(labelKeys, CodeLeq));
  }

  // ---- the per-day aggregation of a month's entries ----

  /** The raw category of each entry, in order. */
  function CategoriesOf(data: seq<Api.Entry>): (r: seq<string>)
    ensures |r| == |data| && forall i :: 0 <= i < |data| ==> r[i] == data[i].category
  {
    seq(|data|, i requires 0 <= i < |data| => data[i].category)
  }

  function NonBlank(v: string): bool {
    |Trim(v)| > 0
  }

  /** The categories whose definitions are fetched: the non-blank ones, each once, in order of first appearance. */
  function CategoriesToFetch(data: seq<Api.Entry>): seq<string> {
    DedupBy(Filter(CategoriesOf(data), NonBlank), Api.Identity)
  }

  /**
   * Definitions are fetched once per distinct non-blank category spelling
   * that occurs in the month, and for no other text.
   */
  lemma CategoriesToFetchSpec(data: seq<Api.Entry>, c: string)
    ensures Distinct(CategoriesToFetch(data))
    ensures c in CategoriesToFetch(data) <==> NonBlank(c) && exists i :: 0 <= i < |data| && data[i].category == c
  {
    var kept := Filter(CategoriesOf(data), NonBlank);
    FilterSpec(CategoriesOf(data), NonBlank);
    DedupBySpec(kept, Api.Identity);
    if i :| 0 <= i < |data| && data[i].category == c && NonBlank(c) {
      assert CategoriesOf(data)[i] == c;
      assert c in kept;
    }
    if c in kept {
      var k :| 0 <= k < |CategoriesOf(data)| && CategoriesOf(data)[k] == c;
      assert data[k].category == c;
    }
  }

  /** The definitions of each fetched category, or none when its request failed. */
  function DefinitionsResults(categories: seq<string>, responses: seq<Option<seq<Api.Definition>>>): (r: seq<NotableValues.DefinitionsByCategory>)
    requires |responses| == |categories|
    ensures |r| == |categories|
    ensures forall i :: 0 <= i < |r| ==>
      (r[i].category == categories[i] && r[i].definitions == (if responses[i].Some? then responses[i].value else []))
  {
    seq(|categories|, i requires 0 <= i < |categories| =>
      NotableValues.DefinitionsByCategory(categories[i], if responses[i].Some? then responses[i].value else []))
  }

  /** `Set.add`: a value already present keeps its place. */
  function AddOnce(s: seq<string>, x: string): (r: seq<string>)
    ensures forall y :: y in r <==> y in s || y == x
  {
    if x in s then s else s + [x]
  }

  /** The notable categories recorded for a day so far, empty when the day is new. */
  function NotableOn(dateMap: map<string, seq<string>>, day: string): seq<string> {
    if day in dateMap then dateMap[day] else []
  }

  /** One entry of the loop: its day gets a record, and its category key joins it when the entry has a notable value. */
  function DateStep(dateMap: map<string, seq<string>>, notableMap: map<string, set<string>>, entry: Api.Entry): map<string, seq<string>> {
    var day := Calendar.KeyPrefix(entry.date);
    var current := NotableOn(dateMap, day);
    dateMap[day := if NotableValues.HasNotableValue(notableMap, entry) then AddOnce(current, Key(entry.category)) else current]
  }

  function DateMapOf(notableMap: map<string, set<string>>, data: seq<Api.Entry>): map<string, seq<string>>
    decreases |data|
  {
    if |data| == 0 then map[]
    else DateStep(DateMapOf(notableMap, data[..|data| - 1]), notableMap, data[|data| - 1])
  }

  /** The category keys of the entries, each mapped to the spelling of its last entry. */
  function LabelsOf(data: seq<Api.Entry>): map<string, string>
    decreases |data|
  {
    if |data| == 0 then map[]
    else LabelsOf(data[..|data| - 1])[Key(data[|data| - 1].category) := data[|data| - 1].category]
  }

  /** The loop over the month's entries that fills `labelsUpdate` and `dateMap`. */
  method Aggregate(notableMap: map<string, set<string>>, data: seq<Api.Entry>)
    returns (labelsUpdate: map<string, string>, dateMap: map<string, seq<string>>)
    ensures labelsUpdate == LabelsOf(data) && dateMap == DateMapOf(notableMap, data)
  {
    labelsUpdate, dateMap := map[], map[];
    for i := 0 to |data|
      invariant labelsUpdate == LabelsOf(data[..i]) && dateMap == DateMapOf(notableMap, data[..i])
    {
      assert data[..i + 1][..i] == data[..i];
      var entry := data[i];
      labelsUpdate := labelsUpdate[Key(entry.category) := entry.category];
      dateMap := RecordDay(dateMap, notableMap, entry);
    }
    assert data[..|data|] == data;
  }

  /** The body of that loop for `dateMap`: the day gets a record, and the category key joins it when the entry has a notable value. */
  method RecordDay(dateMap0: map<string, seq<string>>, notableMap: map<string, set<string>>, entry: Api.Entry)
    returns (dateMap: map<string, seq<string>>)
    ensures dateMap == DateStep(dateMap0, notableMap, entry)
  {
    dateMap := dateMap0;
    var dateKey := Calendar.KeyPrefix(entry.date);
    var categoryKey := Key(entry.category);
    if dateKey !in dateMap {
      dateMap := dateMap[dateKey := []];
    }
    if NotableValues.HasNotableValue(notableMap, entry) {
      dateMap := dateMap[dateKey := AddOnce(dateMap[dateKey], categoryKey)];
    }
  }

  /** Some entry of the list falls on `day`. */
  predicate HasDay(data: seq<Api.Entry>, day: string) {
    exists i :: 0 <= i < |data| && Calendar.KeyPrefix(data[i].date) == day
  }

  /** Some entry of the list falls on `day`, has category key `c`, and has a notable value. */
  predicate NotableCategoryOn(notableMap: map<string, set<string>>, data: seq<Api.Entry>, day: string, c: string) {
    exists i :: 0 <= i < |data| && Calendar.KeyPrefix(data[i].date) == day && Key(data[i].category) == c
      && NotableValues.HasNotableValue(notableMap, data[i])
  }

  lemma HasDaySnoc(data: seq<Api.Entry>, day: string)
    requires |data| > 0
    ensures HasDay(data, day) <==>
      HasDay(data[..|data| - 1], day) || Calendar.KeyPrefix(data[|data| - 1].date) == day
  {
    var init := data[..|data| - 1];
    if i :| 0 <= i < |init| && Calendar.KeyPrefix(init[i].date) == day {
      assert data[i] == init[i];
    }
    if i :| 0 <= i < |data| && Calendar.KeyPrefix(data[i].date) == day {
      if i < |init| {
        assert data[i] == init[i];
      }
    }
  }

  lemma NotableCategorySnoc(notableMap: map<string, set<string>>, data: seq<Api.Entry>, day: string, c: string)
    requires |data| > 0
    ensures var last := data[|data| - 1];
      NotableCategoryOn(notableMap, data, day, c) <==>
        NotableCategoryOn(notableMap, data[..|data| - 1], day, c)
        || (Calendar.KeyPrefix(last.date) == day && Key(last.category) == c && NotableValues.HasNotableValue(notableMap, last))
  {
    var init := data[..|data| - 1];
    if i :| (0 <= i < |init| && Calendar.KeyPrefix(init[i].date) == day && Key(init[i].category) == c
        && NotableValues.HasNotableValue(notableMap, init[i])) {
      assert data[i] == init[i];
    }
    if i :| (0 <= i < |data| && Calendar.KeyPrefix(data[i].date) == day && Key(data[i].category) == c
        && NotableValues.HasNotableValue(notableMap, data[i])) {
      if i < |init| {
        assert data[i] == init[i];
      }
    }
  }

  /**
   * A day has a record exactly when some entry falls on it; its list holds
   * exactly the category keys of the entries of that day with a notable
   * value, each once.
   */
  lemma {:induction false} DateMapSpec(notableMap: map<string, set<string>>, data: seq<Api.Entry>, day: string, c: string)
    ensures day in DateMapOf(notableMap, data) <==> HasDay(data, day)
    ensures c in NotableOn(DateMapOf(notableMap, data), day) <==> NotableCategoryOn(notableMap, data, day, c)
    ensures Distinct(NotableOn(DateMapOf(notableMap, data), day))
    decreases |data|
  {
    if |data| > 0 {
      var init := data[..|data| - 1];
      DateMapSpec(notableMap, init, day, c);
      HasDaySnoc(data, day);
      NotableCategorySnoc(notableMap, data, day, c);
      var current := NotableOn(DateMapOf(notableMap, init), day);
      var last := data[|data| - 1];
      if Calendar.KeyPrefix(last.date) == day && NotableValues.HasNotableValue(notableMap, last) && Key(last.category) !in current {
        DistinctSnoc(current, Key(last.category));
      }
    }
  }

  /** A category key is labelled exactly when some entry has it. */
  lemma {:induction false} LabelsKeys(data: seq<Api.Entry>, key: string)
    ensures key in LabelsOf(data) <==> exists i :: 0 <= i < |data| && Key(data[i].category) == key
    decreases |data|
  {
    if |data| > 0 {
      var init := data[..|data| - 1];
      LabelsKeys(init, key);
      if i :| 0 <= i < |init| && Key(init[i].category) == key {
        assert data[i] == init[i];
      }
      if i :| 0 <= i < |data| && Key(data[i].category) == key {
        if i < |init| {
          assert data[i] == init[i];
        }
      }
    }
  }

  /** The label of a key is the spelling of the last entry with that key. */
  lemma {:induction false} LabelsLastWins(data: seq<Api.Entry>, i: int)
    requires 0 <= i < |data|
    requires forall j :: i < j < |data| ==> Key(data[j].category) != Key(data[i].category)
    ensures Key(data[i].category) in LabelsOf(data)
    ensures LabelsOf(data)[Key(data[i].category)] == data[i].category
    decreases |data|
  {
    if i < |data| - 1 {
      var init := data[..|data| - 1];
      assert init[i] == data[i];
      forall j | i < j < |init|
        ensures Key(init[j].category) != Key(init[i].category)
      {
        assert init[j] == data[j];
      }
      LabelsLastWins(init, i);
    }
  }

  // ---- the days shown on the calendar ----

  const RequiredCategories: seq<string> := ["observation", "symptom"]

  /** `requiredCategories.every(...)`: every required category is among the day's notable ones. */
  predicate HasRequired(notable: seq<string>) {
    forall k :: 0 <= k < |RequiredCategories| ==> RequiredCategories[k] in notable
  }

  function CalendarMapOf(dateMap: map<string, seq<string>>): map<string, seq<string>> {
    map day | day in dateMap && HasRequired(dateMap[day]) :: dateMap[day]
  }

  /** The loop over the day records that keeps the qualifying days; the records are visited in any order. */
  method CalendarMap(dateMap: map<string, seq<string>>) returns (calendarMap: map<string, seq<string>>)
    ensures calendarMap == CalendarMapOf(dateMap)
  {
    calendarMap := map[];
    var remaining := dateMap.Keys;
    while remaining != {}
      invariant remaining <= dateMap.Keys
      invariant calendarMap == map day | day in dateMap.Keys - remaining && HasRequired(dateMap[day]) :: dateMap[day]
      decreases |remaining|
    {
      var day :| day in remaining;
      if HasRequired(dateMap[day]) {
        calendarMap := calendarMap[day := dateMap[day]];
      }
      remaining := remaining - {day};
    }
  }

  /**
   * A day is shown exactly when, on that day, some observation and some
   * symptom entry each had a notable value; it lists exactly the
   * categories notable that day.
   */
  lemma CalendarDaySpec(notableMap: map<string, set<string>>, data: seq<Api.Entry>, day: string, c: string)
    ensures var calendarMap := CalendarMapOf(DateMapOf(notableMap, data));
      && (day in calendarMap <==>
            NotableCategoryOn(notableMap, data, day, "observation") && NotableCategoryOn(notableMap, data, day, "symptom"))
      && (day in calendarMap ==> (c in calendarMap[day] <==> NotableCategoryOn(notableMap, data, day, c)))
  {
    DateMapSpec(notableMap, data, day, c);
    DateMapSpec(notableMap, data, day, "observation");
    DateMapSpec(notableMap, data, day, "symptom");
    var dm := DateMapOf(notableMap, data);
    if NotableCategoryOn(notableMap, data, day, "observation") {
      var i :| 0 <= i < |data| && Calendar.KeyPrefix(data[i].date) == day && Key(data[i].category) == "observation"
        && NotableValues.HasNotableValue(notableMap, data[i]);
      assert HasDay(data, day);
    }
    if day in dm {
      assert HasRequired(dm[day]) <==> "observation" in dm[day] && "symptom" in dm[day] by {
        assert RequiredCategories[0] == "observation" && RequiredCategories[1] == "symptom";
      }
    }
  }

  // ---- category labels ----

  const DefaultLabels: map<string, string> := map["observation" := "observation", "symptom" := "symptom"]

  /** `{ ...prev, ...labelsUpdate }`. */
  function MergeLabels(prev: map<string, string>, update: map<string, string>): map<string, string> {
    prev + update
  }

  /**
   * After a month is loaded every category key seen in it has a label,
   * spelled as its last entry; earlier labels stay; and every label,
   * including the two defaults, has a colour.
   */
  lemma LoadedLabelsColoured(prev: map<string, string>, data: seq<Api.Entry>, i: int, labelKeys: seq<string>)
    requires DefaultLabels.Keys <= prev.Keys
    requires 0 <= i < |data|
    requires forall j :: i < j < |data| ==> Key(data[j].category) != Key(data[i].category)
    requires Distinct(labelKeys) && forall k :: k in labelKeys <==> k in MergeLabels(prev, LabelsOf(data))
    ensures var labels := MergeLabels(prev, LabelsOf(data));
      && Key(data[i].category) in labels && labels[Key(data[i].category)] == data[i].category
      && prev.Keys <= labels.Keys
      && var colors := ColorsOf(SortBy(labelKeys, CodeLeq));
        Key(data[i].category) in colors && "observation" in colors && "symptom" in colors
  {
    LabelsLastWins(data, i);
    var colors := ColorsOf(SortBy(labelKeys, CodeLeq));
    CodeLeqTotalPreorder();
    forall k | k in labelKeys
      ensures k in colors
    {
      ColorsOfKeys(SortBy(labelKeys, CodeLeq), k);
      assert k in multiset(SortBy(labelKeys, CodeLeq));
    }
    assert "observation" in DefaultLabels && "symptom" in DefaultLabels;
  }
}
