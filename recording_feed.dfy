/**
 * The recording feed: for every day of a chosen range and every known
 * (category, type) pair, an item to fill in unless an entry already exists
 * for that day, category and type.  Days are day numbers; keys are the
 * `YYYY-MM-DD` strings of the calendar module.
 */
module RecordingFeed {
  import opened Text
  import opened Ordering
  import opened Wrappers
  import Calendar
  import Api

  const DefaultDaysRange: int := 7
  const MaxDaysRange: int := 120
  const PageSize: nat := 12

  // ---- range of days ----

  /** A JavaScript number: a finite value, or NaN and the infinities. */
  datatype Num = Finite(value: real) | NotFinite

  /** sanitiseDays: 7 for a non-finite number, otherwise its floor clamped to 1..120. */
  function SanitiseDays(v: Num): (r: int)
    ensures 1 <= r <= MaxDaysRange
    ensures v.NotFinite? ==> r == DefaultDaysRange
    ensures v.Finite? && 1 <= v.value.Floor <= MaxDaysRange ==> r == v.value.Floor
  {
    if v.NotFinite? then DefaultDaysRange
    else
      var rounded := v.value.Floor;
      if rounded < 1 then 1
      else if rounded > MaxDaysRange then MaxDaysRange
      else rounded
  }

  /** Sanitising an already sanitised count keeps it, and larger inputs never give fewer days. */
  lemma SanitiseDaysProperties(a: Num, b: Num)
    ensures SanitiseDays(Finite(SanitiseDays(a) as real)) == SanitiseDays(a)
    ensures a.Finite? && b.Finite? && a.value <= b.value ==> SanitiseDays(a) <= SanitiseDays(b)
  {
    var n := SanitiseDays(a) as real;
    assert n.Floor == SanitiseDays(a);
  }

  datatype RangeMode = Days | FromDate

  datatype StartDateResult = StartDateResult(startDateKey: Option<string>, message: Option<string>, daysUsed: Option<int>)

  const NoTodayMessage := "Unable to determine today's date."
  const LimitMessage := "Limiting the range to 120 days to keep the feed manageable."
  const NoStartMessage := "Select a start date to show pending entries."
  const InvalidStartMessage := "Select a valid start date."
  const FutureStartMessage := "The start date cannot be in the future. Showing entries starting today."

  /**
   * getStartDateResult.  In days mode the range ends today and spans the
   * sanitised number of days; in date mode it starts at the chosen date,
   * or today when that date is in the future.
   */
  function GetStartDateResult(mode: RangeMode, todayKey: string, daysBack: Num, startDateInput: string): StartDateResult {
    match Calendar.ParseDateKey(todayKey)
    case None => StartDateResult(None, Some(NoTodayMessage), None)
    case Some(today) =>
      if mode.Days? then
        var n := SanitiseDays(daysBack);
        var clamped := !(daysBack.Finite? && daysBack.value == n as real) && n == MaxDaysRange;
        StartDateResult(Some(Calendar.ToDateKey(today - (n - 1))), if clamped then Some(LimitMessage) else None, Some(n))
      else if startDateInput == "" then StartDateResult(None, Some(NoStartMessage), None)
      else
        match Calendar.ParseDateKey(startDateInput)
        case None => StartDateResult(None, Some(InvalidStartMessage), None)
        case Some(parsed) =>
          if parsed > today then StartDateResult(Some(todayKey), Some(FutureStartMessage), None)
          else StartDateResult(Some(Calendar.ToDateKey(parsed)), None, None)
  }

  /**
   * Days mode starts n - 1 days before today, n being the sanitised count,
   * and explains itself exactly when the request was cut down to 120 days.
   */
  lemma DaysModeSpec(todayKey: string, daysBack: Num, input: string)
    requires Calendar.ParseDateKey(todayKey).Some?
    ensures var r := GetStartDateResult(Days, todayKey, daysBack, input);
      var n := SanitiseDays(daysBack);
      && r.startDateKey == Some(Calendar.ToDateKey(Calendar.ParseDateKey(todayKey).value - (n - 1)))
      && r.daysUsed == Some(n)
      && (r.message.Some? <==> daysBack.Finite? && daysBack.value > MaxDaysRange as real)
  {
  }

  /**
   * Date mode gives no start for an empty or unreadable date, today's key
   * for a future date, and otherwise the key of the chosen date, which
   * reads back as a day no later than today.
   */
  lemma DateModeSpec(todayKey: string, daysBack: Num, input: string)
    requires Calendar.ParseDateKey(todayKey).Some?
    ensures var r := GetStartDateResult(FromDate, todayKey, daysBack, input);
      var today := Calendar.ParseDateKey(todayKey).value;
      var parsed := Calendar.ParseDateKey(input);
      && (parsed.None? ==> r.startDateKey.None? && r.message.Some?)
      && (parsed.Some? && parsed.value > today ==> r.startDateKey == Some(todayKey))
      && (parsed.Some? && parsed.value <= today && Calendar.InKeyRange(parsed.value) ==>
            r.startDateKey.Some? && r.message.None?
            && Calendar.ParseDateKey(r.startDateKey.value) == Some(parsed.value))
      && r.daysUsed.None?
  {
    var parsed := Calendar.ParseDateKey(input);
    if input == "" {
      assert !Calendar.KeyShaped(input);
    }
    if parsed.Some? && Calendar.InKeyRange(parsed.value) {
      Calendar.InKeyRangeYears(parsed.value);
      Calendar.ParseToDateKey(parsed.value);
    }
  }

  /** Without a readable today there is no start, whatever the mode. */
  lemma NoTodayNoStart(mode: RangeMode, todayKey: string, daysBack: Num, input: string)
    requires Calendar.ParseDateKey(todayKey).None?
    ensures GetStartDateResult(mode, todayKey, daysBack, input) == StartDateResult(None, Some(NoTodayMessage), None)
  {
  }

  // ---- the days of the range ----

  /** The keys of `count` days counted back from day `e`. */
  function KeysDownFrom(e: nat, count: nat): (r: seq<string>)
    requires count <= e + 1
    ensures |r| == count
  {
    seq(count, i requires 0 <= i < count => Calendar.ToDateKey(e - i))
  }

  /** The keys from `endKey` back to `startKey`, one per day; none when either key is unreadable or the range is reversed. */
  function DescendingDateKeys(startKey: string, endKey: string): seq<string> {
    var s, e := Calendar.ParseDateKey(startKey), Calendar.ParseDateKey(endKey);
    if s.None? || e.None? || s.value > e.value then [] else KeysDownFrom(e.value, e.value - s.value + 1)
  }

  /** The loop of createDescendingDateKeys: a cursor stepping back one day at a time. */
  method KeysBetween(s: nat, e: nat) returns (keys: seq<string>)
    requires s <= e
    ensures keys == KeysDownFrom(e, e - s + 1)
  {
    keys := [];
    var cursor: int := e;
    while cursor >= s
      invariant s - 1 <= cursor <= e
      invariant keys == KeysDownFrom(e, e - cursor)
      decreases cursor
    {
      keys := keys + [Calendar.ToDateKey(cursor)];
      cursor := cursor - 1;
    }
  }

  /** createDescendingDateKeys. */
  method CreateDescendingDateKeys(startKey: string, endKey: string) returns (keys: seq<string>)
    ensures keys == DescendingDateKeys(startKey, endKey)
  {
    var startDate := Calendar.ParseDateKey(startKey);
    var endDate := Calendar.ParseDateKey(endKey);
    if startDate.None? || endDate.None? || startDate.value > endDate.value {
      return [];
    }
    keys := KeysBetween(startDate.value, endDate.value);
  }

  /** Counting back from a day within the key range, each key reads back as its day, so none repeats. */
  lemma KeysDownFromSpec(s: nat, e: nat)
    requires s <= e && Calendar.InKeyRange(s) && Calendar.InKeyRange(e)
    ensures var keys := KeysDownFrom(e, e - s + 1);
      && (forall i :: 0 <= i < |keys| ==> Calendar.ParseDateKey(keys[i]) == Some(e - i))
      && Distinct(keys)
  {
    var keys := KeysDownFrom(e, e - s + 1);
    forall i | 0 <= i < |keys|
      ensures Calendar.ParseDateKey(keys[i]) == Some(e - i)
    {
      KeyDownFromReadsBack(s, e, i);
    }
    DistinctByReadBack(keys, e);
  }

  lemma KeyDownFromReadsBack(s: nat, e: nat, i: nat)
    requires s <= e && Calendar.InKeyRange(s) && Calendar.InKeyRange(e) && i <= e - s
    ensures Calendar.ParseDateKey(KeysDownFrom(e, e - s + 1)[i]) == Some(e - i)
  {
    assert KeysDownFrom(e, e - s + 1)[i] == Calendar.ToDateKey(e - i);
    Calendar.KeyRangeRoundTrip(e - i);
  }

  /** Keys that read back as consecutive days counted down are distinct. */
  lemma DistinctByReadBack(keys: seq<string>, e: int)
    requires forall i :: 0 <= i < |keys| ==> Calendar.ParseDateKey(keys[i]) == Some(e - i)
    ensures Distinct(keys)
  {
    forall i, j | 0 <= i < j < |keys|
      ensures keys[i] != keys[j]
    {
      assert Calendar.ParseDateKey(keys[i]) != Calendar.ParseDateKey(keys[j]);
    }
  }

  /**
   * The range lists end - start + 1 keys, from the end day down to the
   * start day; each key reads back as the day before the previous one, so
   * no day appears twice.
   */
  lemma DescendingDateKeysSpec(startKey: string, endKey: string, s: nat, e: nat)
    requires Calendar.ParseDateKey(startKey) == Some(s) && Calendar.ParseDateKey(endKey) == Some(e)
    requires Calendar.InKeyRange(s) && Calendar.InKeyRange(e)
    ensures s > e ==> DescendingDateKeys(startKey, endKey) == []
    ensures s <= e ==> |DescendingDateKeys(startKey, endKey)| == e - s + 1
    ensures forall i :: 0 <= i < |DescendingDateKeys(startKey, endKey)| ==>
      Calendar.ParseDateKey(DescendingDateKeys(startKey, endKey)[i]) == Some(e - i)
    ensures Distinct(DescendingDateKeys(startKey, endKey))
  {
    if s <= e {
      assert DescendingDateKeys(startKey, endKey) == KeysDownFrom(e, e - s + 1);
      KeysDownFromSpec(s, e);
    }
  }

  // ---- the (category, type) pairs ----

  datatype CategoryTypeEntry = CategoryTypeEntry(category: string, categoryKey: string, entryType: string, typeKey: string)

  /** The map key `${categoryKey}__${typeKey}`. */
  function ItemKey(c: CategoryTypeEntry): string {
    c.categoryKey + "__" + c.typeKey
  }

  function Candidate(category: string, entryType: string): CategoryTypeEntry {
    CategoryTypeEntry(category, Key(category), entryType, Key(entryType))
  }

  /** Every (category, type) listed by the catalogue, in order. */
  function CatalogueListing(catalogue: seq<Api.CategoryTypes>): seq<CategoryTypeEntry>
    decreases |catalogue|
  {
    if |catalogue| == 0 then []
    else
      var last := catalogue[|catalogue| - 1];
      CatalogueListing(catalogue[..|catalogue| - 1])
      + seq(|last.types|, j requires 0 <= j < |last.types| => Candidate(last.category, last.types[j]))
  }

  function HasTypeKey(c: CategoryTypeEntry): bool { c.typeKey != "" }

  function HasBothKeys(c: CategoryTypeEntry): bool { c.categoryKey != "" && c.typeKey != "" }

  /** Catalogue items are skipped only for an empty type key; entries also for an empty category key. */
  function Candidates(catalogue: seq<Api.CategoryTypes>, entries: seq<Api.Entry>): seq<CategoryTypeEntry> {
    Filter(CatalogueListing(catalogue), HasTypeKey)
    + Filter(seq(|entries|, i requires 0 <= i < |entries| => Candidate(entries[i].category, entries[i].entryType)), HasBothKeys)
  }

  /** The comparator: by type when the lower-cased categories agree, otherwise by category. */
  predicate EntryLeq(a: CategoryTypeEntry, b: CategoryTypeEntry) {
    if Fold(a.category) == Fold(b.category) then LocaleLeq(a.entryType, b.entryType)
    else LocaleLess(a.category, b.category)
  }

  /** The pairs shown: the first candidate of each key, sorted by the comparator. */
  function CategoryTypeEntriesOf(catalogue: seq<Api.CategoryTypes>, entries: seq<Api.Entry>): seq<CategoryTypeEntry> {
    SortBy(DedupBy(Candidates(catalogue, entries), ItemKey), EntryLeq)
  }

  /** The Map of categoryTypeEntries: the first candidate of each key is kept, in visiting order. */
  method FirstOfEachKey(candidates: seq<CategoryTypeEntry>) returns (values: seq<CategoryTypeEntry>)
    ensures values == DedupBy(candidates, ItemKey)
  {
    var seen: set<string> := {};
    values := [];
    assert candidates[0..] == candidates;
    for i := 0 to |candidates|
      invariant values + DedupFrom(candidates[i..], ItemKey, seen) == DedupBy(candidates, ItemKey)
    {
      var rest := candidates[i..];
      assert rest[0] == candidates[i] && rest[1..] == candidates[i + 1..];
      var key := ItemKey(candidates[i]);
      if key !in seen {
        seen := seen + {key};
        values := values + [candidates[i]];
      }
    }
    assert candidates[|candidates|..] == [];
  }

  /** categoryTypeEntries. */
  method CategoryTypeEntries(catalogue: seq<Api.CategoryTypes>, entries: seq<Api.Entry>) returns (items: seq<CategoryTypeEntry>)
    ensures items == CategoryTypeEntriesOf(catalogue, entries)
  {
    var values := FirstOfEachKey(Candidates(catalogue, entries));
    items := SortBy(values, EntryLeq);
  }

  lemma EntryLeqTransitive(a: CategoryTypeEntry, b: CategoryTypeEntry, c: CategoryTypeEntry)
    requires EntryLeq(a, b) && EntryLeq(b, c)
    ensures EntryLeq(a, c)
  {
    var fa, fb, fc := Fold(a.category), Fold(b.category), Fold(c.category);
    if fa == fb && fb == fc {
      LocaleLeqTotalPreorder();
    } else if fa != fb && fb != fc {
      CodeLessTransitive(fa, fb, fc);
      CodeLessIrreflexive(fa);
    }
  }

  /** The comparator is a total preorder, so the sort yields an ordered list. */
  lemma EntryLeqTotalPreorder()
    ensures TotalPreorder(EntryLeq)
  {
    forall a, b
      ensures EntryLeq(a, b) || EntryLeq(b, a)
    {
      LocaleLessTrichotomy(a.entryType, b.entryType);
      LocaleLessTrichotomy(a.category, b.category);
    }
    forall a, b, c | EntryLeq(a, b) && EntryLeq(b, c)
      ensures EntryLeq(a, c)
    {
      EntryLeqTransitive(a, b, c);
    }
  }

  /**
   * The pairs shown are sorted, have pairwise distinct keys, none with an
   * empty type key; each is the first candidate with its key, and every
   * candidate's key is represented.
   */
  lemma CategoryTypeEntriesSpec(catalogue: seq<Api.CategoryTypes>, entries: seq<Api.Entry>)
    ensures var items := CategoryTypeEntriesOf(catalogue, entries);
      var candidates := Candidates(catalogue, entries);
      && SortedBy(items, EntryLeq)
      && (forall i, j :: 0 <= i < j < |items| ==> ItemKey(items[i]) != ItemKey(items[j]))
      && (forall x :: x in items ==> x.typeKey != "" && x in candidates && x == FirstWithKey(candidates, ItemKey, ItemKey(x)))
      && (forall c :: c in candidates ==> exists y :: y in items && ItemKey(y) == ItemKey(c))
  {
    var candidates := Candidates(catalogue, entries);
    var unique := DedupBy(candidates, ItemKey);
    var items := CategoryTypeEntriesOf(catalogue, entries);
    EntryLeqTotalPreorder();
    SortBySorted(unique, EntryLeq);
    DedupBySpec(candidates, ItemKey);
    SortByKeysDistinct(unique, EntryLeq, ItemKey);
    CandidatesHaveTypeKey(catalogue, entries);
    forall x
      ensures x in items <==> x in unique
    {
      assert x in items <==> x in multiset(items);
      assert x in unique <==> x in multiset(unique);
    }
  }

  lemma CandidatesHaveTypeKey(catalogue: seq<Api.CategoryTypes>, entries: seq<Api.Entry>)
    ensures forall c :: c in Candidates(catalogue, entries) ==> c.typeKey != ""
  {
    var listed := CatalogueListing(catalogue);
    var fromEntries := seq(|entries|, i requires 0 <= i < |entries| => Candidate(entries[i].category, entries[i].entryType));
    FilterSpec(listed, HasTypeKey);
    FilterSpec(fromEntries, HasBothKeys);
  }

  /** A pair listed by the catalogue is shown with the catalogue's spelling, even when entries spell it differently. */
  lemma CatalogueSpellingWins(catalogue: seq<Api.CategoryTypes>, entries: seq<Api.Entry>, x: CategoryTypeEntry)
    requires x in CategoryTypeEntriesOf(catalogue, entries)
    requires exists c :: c in Filter(CatalogueListing(catalogue), HasTypeKey) && ItemKey(c) == ItemKey(x)
    ensures x in Filter(CatalogueListing(catalogue), HasTypeKey)
  {
    var fromCatalogue := Filter(CatalogueListing(catalogue), HasTypeKey);
    var candidates := Candidates(catalogue, entries);
    CategoryTypeEntriesSpec(catalogue, entries);
    FirstWithKeyAppend(fromCatalogue, candidates[|fromCatalogue|..], ItemKey, ItemKey(x));
    assert fromCatalogue + candidates[|fromCatalogue|..] == candidates;
    FirstWithKeyIn(fromCatalogue, ItemKey, ItemKey(x));
  }

  // ---- recorded entries ----

  predicate Recordable(e: Api.Entry) {
    Calendar.KeyPrefix(e.date) != "" && Key(e.category) != "" && Key(e.entryType) != ""
  }

  /** `${dateKey}|${categoryKey}|${typeKey}`. */
  function RecordId(e: Api.Entry): string {
    Calendar.KeyPrefix(e.date) + "|" + Key(e.category) + "|" + Key(e.entryType)
  }

  function RecordedKeysOf(entries: seq<Api.Entry>): set<string>
    decreases |entries|
  {
    if |entries| == 0 then {}
    else
      var last := entries[|entries| - 1];
      RecordedKeysOf(entries[..|entries| - 1]) + (if Recordable(last) then {RecordId(last)} else {})
  }

  /** recordedKeys: a Set filled entry by entry. */
  method RecordedKeys(entries: seq<Api.Entry>) returns (keys: set<string>)
    ensures keys == RecordedKeysOf(entries)
  {
    keys := {};
    for i := 0 to |entries|
      invariant keys == RecordedKeysOf(entries[..i])
    {
      assert entries[..i + 1][..i] == entries[..i];
      var e := entries[i];
      if Calendar.KeyPrefix(e.date) != "" && Key(e.category) != "" && Key(e.entryType) != "" {
        keys := keys + {RecordId(e)};
      }
    }
    assert entries[..|entries|] == entries;
  }

  /** An id is recorded exactly when some entry with a date, a category and a type has it. */
  lemma {:induction false} RecordedKeysSpec(entries: seq<Api.Entry>, id: string)
    ensures id in RecordedKeysOf(entries) <==> exists i :: 0 <= i < |entries| && Recordable(entries[i]) && RecordId(entries[i]) == id
    decreases |entries|
  {
    if |entries| > 0 {
      var init := entries[..|entries| - 1];
      RecordedKeysSpec(init, id);
      assert forall i :: 0 <= i < |init| ==> init[i] == entries[i];
      assert (exists i :: 0 <= i < |entries| && Recordable(entries[i]) && RecordId(entries[i]) == id)
        <==> (exists i :: 0 <= i < |init| && Recordable(init[i]) && RecordId(init[i]) == id)
             || (Recordable(entries[|init|]) && RecordId(entries[|init|]) == id);
    }
  }

  // ---- missing items ----

  datatype MissingItem = MissingItem(entry: CategoryTypeEntry, id: string, date: string)

  /** `${dateKey}|${categoryKey}|${typeKey}`, the same shape as a recorded id. */
  function MissingId(dateKey: string, c: CategoryTypeEntry): string {
    dateKey + "|" + c.categoryKey + "|" + c.typeKey
  }

  function Cell(dateKey: string, c: CategoryTypeEntry): MissingItem {
    MissingItem(c, MissingId(dateKey, c), dateKey)
  }

  /** The cells of one day, in the order of the pairs. */
  function Row(dateKey: string, pairs: seq<CategoryTypeEntry>): (r: seq<MissingItem>)
    ensures |r| == |pairs|
  {
    seq(|pairs|, j requires 0 <= j < |pairs| => Cell(dateKey, pairs[j]))
  }

  /** Every (day, pair) cell, day by day. */
  function Product(dateKeys: seq<string>, pairs: seq<CategoryTypeEntry>): seq<MissingItem>
    decreases |dateKeys|
  {
    if |dateKeys| == 0 then []
    else Product(dateKeys[..|dateKeys| - 1], pairs) + Row(dateKeys[|dateKeys| - 1], pairs)
  }

  function Unrecorded(recorded: set<string>): MissingItem -> bool {
    (item: MissingItem) => item.id !in recorded
  }

  function MissingOf(dateKeys: seq<string>, pairs: seq<CategoryTypeEntry>, recorded: set<string>): seq<MissingItem> {
    Filter(Product(dateKeys, pairs), Unrecorded(recorded))
  }

  /** The inner loop: the unrecorded cells of one day, appended in pair order. */
  method AppendMissingForDay(list0: seq<MissingItem>, dateKey: string, pairs: seq<CategoryTypeEntry>, recorded: set<string>)
    returns (list: seq<MissingItem>)
    ensures list == list0 + Filter(Row(dateKey, pairs), Unrecorded(recorded))
  {
    list := list0;
    for j := 0 to |pairs|
      invariant list == list0 + Filter(Row(dateKey, pairs)[..j], Unrecorded(recorded))
    {
      var id := MissingId(dateKey, pairs[j]);
      assert Row(dateKey, pairs)[..j + 1] == Row(dateKey, pairs)[..j] + [Cell(dateKey, pairs[j])];
      FilterAppend(Row(dateKey, pairs)[..j], [Cell(dateKey, pairs[j])], Unrecorded(recorded));
      assert Filter([Cell(dateKey, pairs[j])], Unrecorded(recorded))
        == (if id !in recorded then [Cell(dateKey, pairs[j])] else []);
      if id !in recorded {
        list := list + [MissingItem(pairs[j], id, dateKey)];
      }
    }
    assert Row(dateKey, pairs)[..|pairs|] == Row(dateKey, pairs);
  }

  /** missingItems: every day, and within it every pair, not yet recorded. */
  method MissingItems(dateKeys: seq<string>, pairs: seq<CategoryTypeEntry>, recorded: set<string>) returns (list: seq<MissingItem>)
    ensures list == MissingOf(dateKeys, pairs, recorded)
  {
    if |dateKeys| == 0 || |pairs| == 0 {
      ProductSize(dateKeys, pairs);
      return [];
    }
    list := [];
    for i := 0 to |dateKeys|
      invariant list == Filter(Product(dateKeys[..i], pairs), Unrecorded(recorded))
    {
      assert dateKeys[..i + 1][..i] == dateKeys[..i];
      FilterAppend(Product(dateKeys[..i], pairs), Row(dateKeys[i], pairs), Unrecorded(recorded));
      list := AppendMissingForDay(list, dateKeys[i], pairs, recorded);
    }
    assert dateKeys[..|dateKeys|] == dateKeys;
  }

  lemma {:induction false} ProductSize(dateKeys: seq<string>, pairs: seq<CategoryTypeEntry>)
    ensures |Product(dateKeys, pairs)| == |dateKeys| * |pairs|
    decreases |dateKeys|
  {
    if |dateKeys| > 0 {
      ProductSize(dateKeys[..|dateKeys| - 1], pairs);
    }
  }

  /** A cell is in the product exactly when it pairs a listed day with a listed pair. */
  lemma {:induction false} ProductMembers(dateKeys: seq<string>, pairs: seq<CategoryTypeEntry>, x: MissingItem)
    ensures x in Product(dateKeys, pairs) <==>
      exists i, j :: 0 <= i < |dateKeys| && 0 <= j < |pairs| && x == Cell(dateKeys[i], pairs[j])
    decreases |dateKeys|
  {
    if |dateKeys| > 0 {
      var init := dateKeys[..|dateKeys| - 1];
      var last := dateKeys[|dateKeys| - 1];
      ProductMembers(init, pairs, x);
      if x in Row(last, pairs) {
        var j :| 0 <= j < |pairs| && Row(last, pairs)[j] == x;
        assert x == Cell(dateKeys[|dateKeys| - 1], pairs[j]);
      }
      if i, j :| (0 <= i < |init| && 0 <= j < |pairs| && x == Cell(init[i], pairs[j])) {
        assert x == Cell(dateKeys[i], pairs[j]);
      }
      if i, j :| (0 <= i < |dateKeys| && 0 <= j < |pairs| && x == Cell(dateKeys[i], pairs[j])) {
        if i < |init| {
          assert x == Cell(init[i], pairs[j]);
        } else {
          assert Row(last, pairs)[j] == x;
        }
      }
    }
  }

  /**
   * missingItems is exactly the product of days and pairs less the
   * recorded ids, in day-major order; with nothing recorded it is the
   * whole product.
   */
  lemma MissingSpec(dateKeys: seq<string>, pairs: seq<CategoryTypeEntry>, recorded: set<string>)
    ensures forall x :: x in MissingOf(dateKeys, pairs, recorded) <==>
      x.id !in recorded && exists i, j :: 0 <= i < |dateKeys| && 0 <= j < |pairs| && x == Cell(dateKeys[i], pairs[j])
    ensures Subseq(MissingOf(dateKeys, pairs, recorded), Product(dateKeys, pairs))
    ensures recorded == {} ==> |MissingOf(dateKeys, pairs, recorded)| == |dateKeys| * |pairs|
  {
    forall x
      ensures x in MissingOf(dateKeys, pairs, recorded) <==>
        x.id !in recorded && exists i, j :: 0 <= i < |dateKeys| && 0 <= j < |pairs| && x == Cell(dateKeys[i], pairs[j])
    {
      MissingMember(dateKeys, pairs, recorded, x);
    }
    FilterSpec(Product(dateKeys, pairs), Unrecorded(recorded));
    if recorded == {} {
      FilterTrivial(Product(dateKeys, pairs), Unrecorded(recorded));
      ProductSize(dateKeys, pairs);
    }
  }

  lemma MissingMember(dateKeys: seq<string>, pairs: seq<CategoryTypeEntry>, recorded: set<string>, x: MissingItem)
    ensures x in MissingOf(dateKeys, pairs, recorded) <==>
      x.id !in recorded && exists i, j :: 0 <= i < |dateKeys| && 0 <= j < |pairs| && x == Cell(dateKeys[i], pairs[j])
  {
    FilterSpec(Product(dateKeys, pairs), Unrecorded(recorded));
    assert x in MissingOf(dateKeys, pairs, recorded) <==> x in Product(dateKeys, pairs) && x.id !in recorded;
    ProductMembers(dateKeys, pairs, x);
  }

  /** An entry recorded for a day and pair removes that pair's item for that day. */
  lemma RecordedEntryNotMissing(dateKeys: seq<string>, pairs: seq<CategoryTypeEntry>, entries: seq<Api.Entry>, k: int, d: string, c: CategoryTypeEntry)
    requires 0 <= k < |entries| && Recordable(entries[k])
    requires Calendar.KeyPrefix(entries[k].date) == d && Key(entries[k].category) == c.categoryKey && Key(entries[k].entryType) == c.typeKey
    ensures Cell(d, c) !in MissingOf(dateKeys, pairs, RecordedKeysOf(entries))
  {
    RecordedKeysSpec(entries, MissingId(d, c));
    assert RecordId(entries[k]) == MissingId(d, c);
    FilterSpec(Product(dateKeys, pairs), Unrecorded(RecordedKeysOf(entries)));
  }

  // ---- paging ----

  /** visibleItems: the first min(visibleCount, |missing|) items. */
  function VisibleItems(missing: seq<MissingItem>, visibleCount: nat): seq<MissingItem> {
    missing[..if visibleCount < |missing| then visibleCount else |missing|]
  }

  predicate CanLoadMore(missing: seq<MissingItem>, visibleCount: nat) {
    visibleCount < |missing|
  }

  /** handleShowMore. */
  function ShowMore(visibleCount: nat): nat {
    visibleCount + PageSize
  }

  /**
   * The visible items are a prefix of the missing ones; more can be loaded
   * exactly when some are hidden; showing more extends the prefix by up to
   * a page.
   */
  lemma PagingSpec(missing: seq<MissingItem>, visibleCount: nat)
    ensures var v := VisibleItems(missing, visibleCount);
      && v <= missing
      && (CanLoadMore(missing, visibleCount) <==> |v| < |missing|)
      && v <= VisibleItems(missing, ShowMore(visibleCount))
      && (CanLoadMore(missing, visibleCount) ==>
            |VisibleItems(missing, ShowMore(visibleCount))| == if |missing| - visibleCount < PageSize then |missing| else visibleCount + PageSize)
      && (!CanLoadMore(missing, visibleCount) ==> v == missing)
  {
  }

  // ---- the quick record form ----

  function NotEqual(value: string): string -> bool {
    (v: string) => v != value
  }

  /** QuickRecordForm.toggleValue. */
  function QuickToggle(prev: seq<string>, value: string, allowMultiple: bool): seq<string> {
    if allowMultiple then
      if value in prev then Filter(prev, NotEqual(value)) else prev + [value]
    else if value in prev then [] else [value]
  }

  /**
   * Toggling flips the membership of the value. With several values
   * allowed the others stay selected; otherwise at most one value is
   * selected afterwards.
   */
  lemma QuickToggleSpec(prev: seq<string>, value: string, allowMultiple: bool)
    ensures value in QuickToggle(prev, value, allowMultiple) <==> value !in prev
    ensures allowMultiple ==> forall x :: x != value ==> (x in QuickToggle(prev, value, allowMultiple) <==> x in prev)
    ensures !allowMultiple ==> |QuickToggle(prev, value, allowMultiple)| <= 1
  {
    FilterSpec(prev, NotEqual(value));
  }

  /** With several values allowed, toggling a new value twice restores the selection. */
  lemma QuickToggleTwice(prev: seq<string>, value: string)
    requires value !in prev
    ensures QuickToggle(QuickToggle(prev, value, true), value, true) == prev
  {
    FilterAppend(prev, [value], NotEqual(value));
    FilterTrivial(prev, NotEqual(value));
    assert Filter([value], NotEqual(value)) == [];
  }

  datatype SubmitOutcome = Rejected(message: string) | Save(entry: Api.Entry)

  const NoDefinitionMessage := "Select a value before saving."
  const NoSelectionMessage := "Select at least one value to record the entry."

  /** QuickRecordForm.handleSubmit up to the save call. */
  function QuickSubmit(item: MissingItem, definitionLoaded: bool, selected: seq<string>): SubmitOutcome {
    if !definitionLoaded then Rejected(NoDefinitionMessage)
    else if |selected| == 0 then Rejected(NoSelectionMessage)
    else Save(Api.Entry(item.date, item.entry.category, item.entry.entryType, selected))
  }

  /** A save happens exactly with a loaded definition and a selection, and records the item's day, category and type. */
  lemma QuickSubmitSpec(item: MissingItem, definitionLoaded: bool, selected: seq<string>)
    ensures QuickSubmit(item, definitionLoaded, selected).Save? <==> definitionLoaded && |selected| > 0
    ensures QuickSubmit(item, definitionLoaded, selected).Save? ==>
      var e := QuickSubmit(item, definitionLoaded, selected).entry;
      e.date == item.date && e.category == item.entry.category && e.entryType == item.entry.entryType && e.values == selected
  {
  }
}
