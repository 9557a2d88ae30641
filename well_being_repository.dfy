/**
 * The well-being repository: entries, type definitions and their values
 * kept as rows of the store's three tables (`entry_data`,
 * `entry_definitions`, `entry_values`) and rebuilt from the positional
 * tuples the store returns.  Entries are filtered in memory by date range
 * and by (category, type) pairs.
 */
module Repository {
  import opened Text
  import opened Wrappers
  import opened Ordering
  import opened Store
  import Calendar

  /** An entry: a day, a category, a type and the selected values. */
  datatype WellBeingData = WellBeingData(date: nat, category: string, entryType: string, values: seq<string>)

  datatype WellBeingValue = WellBeingValue(value: string, noticeable: bool)

  datatype WellBeingDefinition = WellBeingDefinition(category: string, entryType: string, values: seq<WellBeingValue>, allowMultiple: bool)

  // ---- the dictionaries handed to the store ----

  function EntryColumns(e: WellBeingData): Dict {
    [("date", Day(e.date)), ("category", Str(e.category)), ("type", Str(e.entryType)), ("values_list", Strs(e.values))]
  }

  function EntryFilter(date: nat, category: string, entryType: string): Dict {
    [("date", Day(date)), ("category", Str(category)), ("type", Str(entryType))]
  }

  function DefinitionColumns(category: string, entryType: string, allowMultiple: bool): Dict {
    [("type", Str(entryType)), ("category", Str(category)), ("allows_multiple", Bool(allowMultiple))]
  }

  /** The delete-type filter names the category `observation` whatever category the caller gave. */
  function DeleteTypeFilter(entryType: string): Dict {
    [("type", Str(entryType)), ("category", Str("observation"))]
  }

  function ValueColumns(entryType: string, value: string, notable: bool): Dict {
    [("parent_type", Str(entryType)), ("value", Str(value)), ("is_notable", Bool(notable))]
  }

  function ValueFilter(entryType: string, value: string): Dict {
    [("parent_type", Str(entryType)), ("value", Str(value))]
  }

  function ParentFilter(entryType: string): Dict {
    [("parent_type", Str(entryType))]
  }

  function CategoryFilter(category: string): Dict {
    [("category", Str(category))]
  }

  // ---- the rows the repository writes ----

  /** The row an entry is stored as. */
  predicate EntryRow(row: Dict) {
    |row| == 4 && row[0].1.Day? && row[1].1.Str? && row[2].1.Str? && row[3].1.Strs?
    && row == EntryColumns(StoredEntry(row))
  }

  function StoredEntry(row: Dict): WellBeingData
    requires |row| == 4 && row[0].1.Day? && row[1].1.Str? && row[2].1.Str? && row[3].1.Strs?
  {
    WellBeingData(row[0].1.day, row[1].1.s, row[2].1.s, row[3].1.items)
  }

  /** The row a type definition is stored as: its columns and the id added on insert. */
  predicate DefinitionRow(row: Dict) {
    |row| == 4 && row[0].1.Str? && row[1].1.Str? && row[2].1.Bool? && row[3].1.Guid?
    && row == DefinitionColumns(row[1].1.s, row[0].1.s, row[2].1.b) + [("id", row[3].1)]
  }

  /** The row a value is stored as: its columns and the id added on insert. */
  predicate ValueRow(row: Dict) {
    |row| == 4 && row[0].1.Str? && row[1].1.Str? && row[2].1.Bool? && row[3].1.Guid?
    && row == ValueColumns(row[0].1.s, row[1].1.s, row[2].1.b) + [("id", row[3].1)]
  }

  predicate AllEntryRows(rows: seq<Dict>) {
    forall row :: row in rows ==> EntryRow(row)
  }

  predicate AllDefinitionRows(rows: seq<Dict>) {
    forall row :: row in rows ==> DefinitionRow(row)
  }

  predicate AllValueRows(rows: seq<Dict>) {
    forall row :: row in rows ==> ValueRow(row)
  }

  // ---- what each filter selects ----

  /** Same day, and category and type equal ignoring case. */
  predicate EntryMatches(row: Dict, date: nat, category: string, entryType: string) {
    EntryRow(row) && row[0].1.day == date && Fold(row[1].1.s) == Fold(category) && Fold(row[2].1.s) == Fold(entryType)
  }

  function EntryMatcher(date: nat, category: string, entryType: string): Dict -> bool {
    row => EntryMatches(row, date, category, entryType)
  }

  function EntryKeeper(date: nat, category: string, entryType: string): Dict -> bool {
    row => !EntryMatches(row, date, category, entryType)
  }

  predicate DeleteTypeMatches(row: Dict, entryType: string) {
    DefinitionRow(row) && Fold(row[0].1.s) == Fold(entryType) && Fold(row[1].1.s) == Fold("observation")
  }

  function DeleteTypeMatcher(entryType: string): Dict -> bool {
    row => DeleteTypeMatches(row, entryType)
  }

  function DeleteTypeKeeper(entryType: string): Dict -> bool {
    row => !DeleteTypeMatches(row, entryType)
  }

  predicate ValueMatches(row: Dict, entryType: string, value: string) {
    ValueRow(row) && Fold(row[0].1.s) == Fold(entryType) && Fold(row[1].1.s) == Fold(value)
  }

  function ValueMatcher(entryType: string, value: string): Dict -> bool {
    row => ValueMatches(row, entryType, value)
  }

  function ValueKeeper(entryType: string, value: string): Dict -> bool {
    row => !ValueMatches(row, entryType, value)
  }

  predicate ParentMatches(row: Dict, entryType: string) {
    ValueRow(row) && Fold(row[0].1.s) == Fold(entryType)
  }

  function ParentMatcher(entryType: string): Dict -> bool {
    row => ParentMatches(row, entryType)
  }

  function ParentKeeper(entryType: string): Dict -> bool {
    row => !ParentMatches(row, entryType)
  }

  predicate CategoryMatches(row: Dict, category: string) {
    DefinitionRow(row) && Fold(row[1].1.s) == Fold(category)
  }

  function CategoryMatcher(category: string): Dict -> bool {
    row => CategoryMatches(row, category)
  }

  function CategoryKeeper(category: string): Dict -> bool {
    row => !CategoryMatches(row, category)
  }

  // ---- reading tuples back ----

  /** `(DateTime)row[0]`, `row[1]?.ToString() ?? ""`, `row[2]?.ToString() ?? ""`, `row[3] as string[] ?? []`. */
  function EntryOfTuple(arr: seq<Value>): (r: Result<WellBeingData>)
    requires |arr| >= 4
    ensures arr[0].Instant? <==> r.Ok?
  {
    match arr[0]
    case Instant(d, _) => Ok(WellBeingData(d, TextOf(arr[1]), TextOf(arr[2]), if arr[3].Strs? then arr[3].items else []))
    case Null => Err(NullReferenceFault)
    case _ => Err(InvalidCastFault)
  }

  /**
   * The row loop of GetAllDataFromDbAsync over the tuples the store
   * returns: tuples shorter than four are skipped, and the first cast
   * that throws ends it.
   */
  function DecodeEntries(tuples: seq<seq<Value>>): Result<seq<WellBeingData>>
  {
    if |tuples| == 0 then Ok([])
    else
      match DecodeEntries(tuples[..|tuples| - 1])
      case Err(f) => Err(f)
      case Ok(init) =>
        var arr := tuples[|tuples| - 1];
        if |arr| >= 4 then
          match EntryOfTuple(arr)
          case Err(f) => Err(f)
          case Ok(e) => Ok(init + [e])
        else Ok(init)
  }

  /**
   * The row loop of GetWellBeingValuesAsync: the notable flag is converted
   * before a null value is skipped, so a bad flag throws even on a row
   * that would be skipped.
   */
  function DecodeValues(tuples: seq<seq<Value>>): Result<seq<WellBeingValue>>
  {
    if |tuples| == 0 then Ok([])
    else
      match DecodeValues(tuples[..|tuples| - 1])
      case Err(f) => Err(f)
      case Ok(init) =>
        var arr := tuples[|tuples| - 1];
        if |arr| >= 4 then
          match ToBoolean(arr[3])
          case Err(f) => Err(f)
          case Ok(b) => if arr[2].Null? then Ok(init) else Ok(init + [WellBeingValue(TextOf(arr[2]), b)])
        else Ok(init)
  }

  lemma {:induction false} DecodeEntriesErrPersists(tuples: seq<seq<Value>>, k: int)
    requires 0 <= k <= |tuples| && DecodeEntries(tuples[..k]).Err?
    ensures DecodeEntries(tuples) == DecodeEntries(tuples[..k])
    decreases |tuples| - k
  {
    if k < |tuples| {
      assert tuples[..k + 1][..k] == tuples[..k];
      DecodeEntriesErrPersists(tuples, k + 1);
    } else {
      assert tuples[..k] == tuples;
    }
  }

  lemma {:induction false} DecodeValuesErrPersists(tuples: seq<seq<Value>>, k: int)
    requires 0 <= k <= |tuples| && DecodeValues(tuples[..k]).Err?
    ensures DecodeValues(tuples) == DecodeValues(tuples[..k])
    decreases |tuples| - k
  {
    if k < |tuples| {
      assert tuples[..k + 1][..k] == tuples[..k];
      DecodeValuesErrPersists(tuples, k + 1);
    } else {
      assert tuples[..k] == tuples;
    }
  }

  /** The loop of GetAllDataFromDbAsync. */
  method ReadEntries(tuples: seq<seq<Value>>) returns (r: Result<seq<WellBeingData>>)
    ensures r == DecodeEntries(tuples)
  {
    var all: seq<WellBeingData> := [];
    var i := 0;
    while i < |tuples|
      invariant 0 <= i <= |tuples|
      invariant DecodeEntries(tuples[..i]) == Ok(all)
    {
      assert tuples[..i + 1][..i] == tuples[..i];
      if |tuples[i]| >= 4 {
        var e := EntryOfTuple(tuples[i]);
        if e.Err? {
          DecodeEntriesErrPersists(tuples, i + 1);
          return Err(e.fault);
        }
        all := all + [e.value];
      }
      i := i + 1;
    }
    assert tuples[..i] == tuples;
    return Ok(all);
  }

  /** The loop of GetWellBeingValuesAsync. */
  method ReadValues(tuples: seq<seq<Value>>) returns (r: Result<seq<WellBeingValue>>)
    ensures r == DecodeValues(tuples)
  {
    var values: seq<WellBeingValue> := [];
    var i := 0;
    while i < |tuples|
      invariant 0 <= i <= |tuples|
      invariant DecodeValues(tuples[..i]) == Ok(values)
    {
      assert tuples[..i + 1][..i] == tuples[..i];
      if |tuples[i]| >= 4 {
        var value := tuples[i][2];
        var notable := ToBoolean(tuples[i][3]);
        if notable.Err? {
          DecodeValuesErrPersists(tuples, i + 1);
          return Err(notable.fault);
        }
        if !value.Null? {
          values := values + [WellBeingValue(TextOf(value), notable.value)];
        }
      }
      i := i + 1;
    }
    assert tuples[..i] == tuples;
    return Ok(values);
  }

  /** The entries of the stored rows, in table order. */
  function StoredEntries(rows: seq<Dict>): (r: seq<WellBeingData>)
    requires AllEntryRows(rows)
    ensures |r| == |rows|
  {
    if |rows| == 0 then []
    else
      var last := rows[|rows| - 1];
      assert last in rows;
      StoredEntries(rows[..|rows| - 1]) + [StoredEntry(last)]
  }

  /** GetWellBeingDataAsync: the first entry with the given day, category and type, if any. */
  function FirstEntry(rows: seq<Dict>, date: nat, category: string, entryType: string): (r: Option<WellBeingData>)
    requires AllEntryRows(rows)
  {
    var m := Filter(rows, EntryMatcher(date, category, entryType));
    FilterSpec(rows, EntryMatcher(date, category, entryType));
    if |m| == 0 then None else assert m[0] in m; Some(StoredEntry(m[0]))
  }

  /** The in-memory filter of GetAllAsync, end-date clause negated as written. */
  predicate KeepEntry(e: WellBeingData, startDate: Option<nat>, endDate: Option<nat>, dataTypes: Option<seq<(string, string)>>) {
    (startDate.None? || e.date >= startDate.value)
    && !(endDate.None? || e.date <= endDate.value)
    && (dataTypes.None? || |dataTypes.value| == 0
        || exists i :: 0 <= i < |dataTypes.value|
             && Fold(e.category) == Fold(dataTypes.value[i].0) && Fold(e.entryType) == Fold(dataTypes.value[i].1))
  }

  function EntryKeep(startDate: Option<nat>, endDate: Option<nat>, dataTypes: Option<seq<(string, string)>>): WellBeingData -> bool {
    e => KeepEntry(e, startDate, endDate, dataTypes)
  }

  function ValueOfRow(row: Dict): WellBeingValue
    requires ValueRow(row)
  {
    WellBeingValue(row[1].1.s, row[2].1.b)
  }

  function ValuesOfRows(rows: seq<Dict>): (r: seq<WellBeingValue>)
    requires AllValueRows(rows)
    ensures |r| == |rows|
  {
    if |rows| == 0 then []
    else
      var last := rows[|rows| - 1];
      assert last in rows;
      ValuesOfRows(rows[..|rows| - 1]) + [ValueOfRow(last)]
  }

  /** GetWellBeingValuesAsync: (value, notable) for every value row of the type, in table order. */
  function ValuesListed(rows: seq<Dict>, entryType: string): (r: seq<WellBeingValue>)
    requires AllValueRows(rows)
  {
    FilterSpec(rows, ParentMatcher(entryType));
    ValuesOfRows(Filter(rows, ParentMatcher(entryType)))
  }

  function DefinitionOfRow(row: Dict, values: seq<Dict>): WellBeingDefinition
    requires DefinitionRow(row) && AllValueRows(values)
  {
    WellBeingDefinition(row[1].1.s, row[0].1.s, ValuesListed(values, row[0].1.s), row[2].1.b)
  }

  function DefinitionsOfRows(defs: seq<Dict>, values: seq<Dict>): (r: seq<WellBeingDefinition>)
    requires AllDefinitionRows(defs) && AllValueRows(values)
    ensures |r| == |defs|
  {
    if |defs| == 0 then []
    else
      var last := defs[|defs| - 1];
      assert last in defs;
      DefinitionsOfRows(defs[..|defs| - 1], values) + [DefinitionOfRow(last, values)]
  }

  /** GetWellBeingDefinitionAsync: one definition per definition row of the category, each with its type's values. */
  function DefinitionsListed(defs: seq<Dict>, values: seq<Dict>, category: string): (r: seq<WellBeingDefinition>)
    requires AllDefinitionRows(defs) && AllValueRows(values)
  {
    FilterSpec(defs, CategoryMatcher(category));
    DefinitionsOfRows(Filter(defs, CategoryMatcher(category)), values)
  }

  // ---- the store sees the repository's dictionaries as written ----

  /** The three table names are folded, hence distinct keys of the store. */
  lemma TableNames()
    ensures Fold(EntryData) == EntryData && Fold(EntryDefinitions) == EntryDefinitions && Fold(EntryValues) == EntryValues
  {
    FoldNames();
  }

  lemma EntryRowLookups(row: Dict)
    requires EntryRow(row)
    ensures Lookup(row, "date") == Some(row[0].1) && Lookup(row, "category") == Some(row[1].1)
    ensures Lookup(row, "type") == Some(row[2].1) && Lookup(row, "values_list") == Some(row[3].1)
  {
    LookupAt(row, 0);
    LookupAt(row, 1);
    LookupAt(row, 2);
    LookupAt(row, 3);
  }

  lemma DefinitionRowLookups(row: Dict)
    requires DefinitionRow(row)
    ensures Lookup(row, "type") == Some(row[0].1) && Lookup(row, "category") == Some(row[1].1)
    ensures Lookup(row, "allows_multiple") == Some(row[2].1) && Lookup(row, "id") == Some(row[3].1)
  {
    LookupAt(row, 0);
    LookupAt(row, 1);
    LookupAt(row, 2);
    LookupAt(row, 3);
  }

  lemma ValueRowLookups(row: Dict)
    requires ValueRow(row)
    ensures Lookup(row, "parent_type") == Some(row[0].1) && Lookup(row, "value") == Some(row[1].1)
    ensures Lookup(row, "is_notable") == Some(row[2].1) && Lookup(row, "id") == Some(row[3].1)
  {
    LookupAt(row, 0);
    LookupAt(row, 1);
    LookupAt(row, 2);
    LookupAt(row, 3);
  }

  /** An entry is stored exactly as given: its day, its text and its values list. */
  lemma NormalizeEntryColumns(e: WellBeingData, newId: nat)
    ensures NormalizedRow(EntryData, EntryColumns(e), newId) == Ok(EntryColumns(e))
  {
    FoldNames();
    NormalizeUnchanged(EntryData, EntryColumns(e));
  }

  /** A definition is stored as given, plus a fresh id. */
  lemma NormalizeDefinitionColumns(category: string, entryType: string, allowMultiple: bool, newId: nat)
    ensures NormalizedRow(EntryDefinitions, DefinitionColumns(category, entryType, allowMultiple), newId)
            == Ok(DefinitionColumns(category, entryType, allowMultiple) + [("id", Guid(newId))])
  {
    FoldNames();
    var c := DefinitionColumns(category, entryType, allowMultiple);
    NormalizeUnchanged(EntryDefinitions, c);
    LookupAbsent(c, "id");
  }

  /** A value is stored as given, plus a fresh id. */
  lemma NormalizeValueColumns(entryType: string, value: string, notable: bool, newId: nat)
    ensures NormalizedRow(EntryValues, ValueColumns(entryType, value, notable), newId)
            == Ok(ValueColumns(entryType, value, notable) + [("id", Guid(newId))])
  {
    FoldNames();
    var c := ValueColumns(entryType, value, notable);
    NormalizeUnchanged(EntryValues, c);
    LookupAbsent(c, "id");
  }

  lemma EntryRowsFiltered(rows: seq<Dict>, p: Dict -> bool)
    requires AllEntryRows(rows)
    ensures AllEntryRows(Filter(rows, p))
  {
    FilterSpec(rows, p);
  }

  lemma DefinitionRowsFiltered(rows: seq<Dict>, p: Dict -> bool)
    requires AllDefinitionRows(rows)
    ensures AllDefinitionRows(Filter(rows, p))
  {
    FilterSpec(rows, p);
  }

  lemma ValueRowsFiltered(rows: seq<Dict>, p: Dict -> bool)
    requires AllValueRows(rows)
    ensures AllValueRows(Filter(rows, p))
  {
    FilterSpec(rows, p);
  }

  /** A filter whose normalised form is itself and which decides every row by `m` selects the `m`-rows and removes them. */
  lemma QueryDecided(table: string, rows: seq<Dict>, filters: Dict, m: Dict -> bool, n: Dict -> bool, newId: nat)
    requires Normalize(table, filters) == Ok(filters)
    requires forall x :: n(x) == !m(x)
    requires forall x :: x in rows ==> Matches(table, x, filters) == Ok(m(x))
    ensures Query(table, rows, filters, newId) == Ok(ProjectAll(table, Filter(rows, m), newId))
    ensures Removed(table, rows, filters) == Ok(Filter(rows, n))
  {
    SplitDecided(table, rows, filters, m, n);
  }

  lemma EntryRowMatches(row: Dict, date: nat, category: string, entryType: string)
    requires EntryRow(row)
    ensures Matches(EntryData, row, EntryFilter(date, category, entryType)) == Ok(EntryMatches(row, date, category, entryType))
  {
    FoldNames();
    EntryRowLookups(row);
    var f := EntryFilter(date, category, entryType);
    var f1 := [("category", Str(category)), ("type", Str(entryType))];
    var f2 := [("type", Str(entryType))];
    assert f[1..] == f1;
    assert f1[1..] == f2;
    assert f2[1..] == [];
    MatchesStep(EntryData, row, f);
    MatchesStep(EntryData, row, f1);
    MatchesStep(EntryData, row, f2);
  }

  lemma DeleteTypeRowMatches(row: Dict, entryType: string)
    requires DefinitionRow(row)
    ensures Matches(EntryDefinitions, row, DeleteTypeFilter(entryType)) == Ok(DeleteTypeMatches(row, entryType))
  {
    CataloguesHaveNoDate();
    DefinitionRowLookups(row);
    var f := DeleteTypeFilter(entryType);
    var f1 := [("category", Str("observation"))];
    assert f[1..] == f1 && f1[1..] == [];
    MatchesStep(EntryDefinitions, row, f);
    MatchesStep(EntryDefinitions, row, f1);
  }

  lemma ValueRowMatches(row: Dict, entryType: string, value: string)
    requires ValueRow(row)
    ensures Matches(EntryValues, row, ValueFilter(entryType, value)) == Ok(ValueMatches(row, entryType, value))
  {
    CataloguesHaveNoDate();
    ValueRowLookups(row);
    var f := ValueFilter(entryType, value);
    var f1 := [("value", Str(value))];
    assert f[1..] == f1 && f1[1..] == [];
    MatchesStep(EntryValues, row, f);
    MatchesStep(EntryValues, row, f1);
  }

  lemma ParentRowMatches(row: Dict, entryType: string)
    requires ValueRow(row)
    ensures Matches(EntryValues, row, ParentFilter(entryType)) == Ok(ParentMatches(row, entryType))
  {
    CataloguesHaveNoDate();
    ValueRowLookups(row);
    assert ParentFilter(entryType)[1..] == [];
    MatchesStep(EntryValues, row, ParentFilter(entryType));
  }

  lemma CategoryRowMatches(row: Dict, category: string)
    requires DefinitionRow(row)
    ensures Matches(EntryDefinitions, row, CategoryFilter(category)) == Ok(CategoryMatches(row, category))
  {
    CataloguesHaveNoDate();
    DefinitionRowLookups(row);
    assert CategoryFilter(category)[1..] == [];
    MatchesStep(EntryDefinitions, row, CategoryFilter(category));
  }

  /** Get and Remove with the entry key select, and drop, exactly the entries of that day, category and type. */
  lemma EntryFilterDecides(rows: seq<Dict>, date: nat, category: string, entryType: string, newId: nat)
    requires AllEntryRows(rows)
    ensures Query(EntryData, rows, EntryFilter(date, category, entryType), newId)
            == Ok(ProjectAll(EntryData, Filter(rows, EntryMatcher(date, category, entryType)), newId))
    ensures Removed(EntryData, rows, EntryFilter(date, category, entryType))
            == Ok(Filter(rows, EntryKeeper(date, category, entryType)))
  {
    FoldNames();
    var f := EntryFilter(date, category, entryType);
    NormalizeUnchanged(EntryData, f);
    forall x | x in rows
      ensures Matches(EntryData, x, f) == Ok(EntryMatcher(date, category, entryType)(x))
    {
      EntryRowMatches(x, date, category, entryType);
    }
    QueryDecided(EntryData, rows, f, EntryMatcher(date, category, entryType), EntryKeeper(date, category, entryType), newId);
  }

  /** The delete-type filter drops exactly the `observation` definitions of the type. */
  lemma DeleteTypeFilterDecides(rows: seq<Dict>, entryType: string)
    requires AllDefinitionRows(rows)
    ensures Removed(EntryDefinitions, rows, DeleteTypeFilter(entryType)) == Ok(Filter(rows, DeleteTypeKeeper(entryType)))
  {
    FoldNames();
    var f := DeleteTypeFilter(entryType);
    NormalizeUnchanged(EntryDefinitions, f);
    forall x | x in rows
      ensures Matches(EntryDefinitions, x, f) == Ok(DeleteTypeMatcher(entryType)(x))
    {
      DeleteTypeRowMatches(x, entryType);
    }
    QueryDecided(EntryDefinitions, rows, f, DeleteTypeMatcher(entryType), DeleteTypeKeeper(entryType), 0);
  }

  /** The value filter drops exactly the rows with that type and value. */
  lemma ValueFilterDecides(rows: seq<Dict>, entryType: string, value: string)
    requires AllValueRows(rows)
    ensures Removed(EntryValues, rows, ValueFilter(entryType, value)) == Ok(Filter(rows, ValueKeeper(entryType, value)))
  {
    FoldNames();
    var f := ValueFilter(entryType, value);
    NormalizeUnchanged(EntryValues, f);
    forall x | x in rows
      ensures Matches(EntryValues, x, f) == Ok(ValueMatcher(entryType, value)(x))
    {
      ValueRowMatches(x, entryType, value);
    }
    QueryDecided(EntryValues, rows, f, ValueMatcher(entryType, value), ValueKeeper(entryType, value), 0);
  }

  /** The parent filter selects exactly the value rows of the type. */
  lemma ParentFilterDecides(rows: seq<Dict>, entryType: string, newId: nat)
    requires AllValueRows(rows)
    ensures Query(EntryValues, rows, ParentFilter(entryType), newId)
            == Ok(ProjectAll(EntryValues, Filter(rows, ParentMatcher(entryType)), newId))
  {
    FoldNames();
    var f := ParentFilter(entryType);
    NormalizeUnchanged(EntryValues, f);
    forall x | x in rows
      ensures Matches(EntryValues, x, f) == Ok(ParentMatcher(entryType)(x))
    {
      ParentRowMatches(x, entryType);
    }
    QueryDecided(EntryValues, rows, f, ParentMatcher(entryType), ParentKeeper(entryType), newId);
  }

  /** The category filter selects exactly the definition rows of the category. */
  lemma CategoryFilterDecides(rows: seq<Dict>, category: string, newId: nat)
    requires AllDefinitionRows(rows)
    ensures Query(EntryDefinitions, rows, CategoryFilter(category), newId)
            == Ok(ProjectAll(EntryDefinitions, Filter(rows, CategoryMatcher(category)), newId))
  {
    FoldNames();
    var f := CategoryFilter(category);
    NormalizeUnchanged(EntryDefinitions, f);
    forall x | x in rows
      ensures Matches(EntryDefinitions, x, f) == Ok(CategoryMatcher(category)(x))
    {
      CategoryRowMatches(x, category);
    }
    QueryDecided(EntryDefinitions, rows, f, CategoryMatcher(category), CategoryKeeper(category), newId);
  }

  /** The tuple of a stored entry row reads back as the entry. */
  lemma EntryTupleRoundTrip(row: Dict, newId: nat)
    requires EntryRow(row)
    ensures |Project(EntryData, row, newId)| == 4
    ensures EntryOfTuple(Project(EntryData, row, newId)) == Ok(StoredEntry(row))
  {
    FoldNames();
    EntryRowLookups(row);
  }

  /** Tuple i of a projected entry table reads back as the i-th stored entry. */
  lemma EntryTupleAt(rows: seq<Dict>, newId: nat, i: int)
    requires AllEntryRows(rows) && 0 <= i < |rows|
    ensures rows[i] in rows
    ensures |ProjectAll(EntryData, rows, newId)[i]| == 4
    ensures EntryOfTuple(ProjectAll(EntryData, rows, newId)[i]) == Ok(StoredEntry(rows[i]))
  {
    assert rows[i] in rows;
    EntryTupleRoundTrip(rows[i], newId + i);
  }

  /** Tuple i of a projected value table holds the i-th row's value (never null) and its notable flag. */
  lemma ValueTupleAt(rows: seq<Dict>, newId: nat, i: int)
    requires AllValueRows(rows) && 0 <= i < |rows|
    ensures var t := ProjectAll(EntryValues, rows, newId)[i];
      |t| == 4 && rows[i] in rows && !t[2].Null? && ToBoolean(t[3]).Ok?
      && WellBeingValue(TextOf(t[2]), ToBoolean(t[3]).value) == ValueOfRow(rows[i])
  {
    assert rows[i] in rows;
    FoldNames();
    ValueRowLookups(rows[i]);
  }

  /** Tuple i of a projected definition table holds the i-th row's type, category and flag. */
  lemma DefinitionTupleAt(rows: seq<Dict>, newId: nat, i: int)
    requires AllDefinitionRows(rows) && 0 <= i < |rows|
    ensures var t := ProjectAll(EntryDefinitions, rows, newId)[i];
      |t| == 4 && rows[i] in rows && ToBoolean(t[3]).Ok?
      && TextOf(t[1]) == rows[i][0].1.s && TextOf(t[2]) == rows[i][1].1.s && ToBoolean(t[3]).value == rows[i][2].1.b
  {
    assert rows[i] in rows;
    FoldNames();
    DefinitionRowLookups(rows[i]);
  }

  /** The first tuple of a Get by entry key is the first matching entry. */
  lemma FirstEntryTuples(rows: seq<Dict>, date: nat, category: string, entryType: string, newId: nat)
    requires AllEntryRows(rows)
    ensures var ts := ProjectAll(EntryData, Filter(rows, EntryMatcher(date, category, entryType)), newId);
      (|ts| == 0 <==> FirstEntry(rows, date, category, entryType).None?)
      && (|ts| > 0 ==> |ts[0]| == 4 && EntryOfTuple(ts[0]) == Ok(FirstEntry(rows, date, category, entryType).value))
  {
    var m := Filter(rows, EntryMatcher(date, category, entryType));
    FilterSpec(rows, EntryMatcher(date, category, entryType));
    assert AllEntryRows(m);
    if |m| > 0 {
      EntryTupleAt(m, newId, 0);
    }
  }

  /** Reading back the projection of stored entry rows yields exactly the stored entries, in order. */
  lemma {:induction false} EntriesDecode(rows: seq<Dict>, newId: nat)
    requires AllEntryRows(rows)
    ensures DecodeEntries(ProjectAll(EntryData, rows, newId)) == Ok(StoredEntries(rows))
    decreases |rows|
  {
    if |rows| > 0 {
      var init := rows[..|rows| - 1];
      var ts := ProjectAll(EntryData, rows, newId);
      assert ts[..|ts| - 1] == ProjectAll(EntryData, init, newId);
      EntriesDecode(init, newId);
      EntryTupleAt(rows, newId, |rows| - 1);
    }
  }

  /** Reading back the projection of stored value rows yields exactly their (value, notable) pairs, in order. */
  lemma {:induction false} ValuesDecode(rows: seq<Dict>, newId: nat)
    requires AllValueRows(rows)
    ensures DecodeValues(ProjectAll(EntryValues, rows, newId)) == Ok(ValuesOfRows(rows))
    decreases |rows|
  {
    if |rows| > 0 {
      var init := rows[..|rows| - 1];
      var ts := ProjectAll(EntryValues, rows, newId);
      assert ts[..|ts| - 1] == ProjectAll(EntryValues, init, newId);
      ValuesDecode(init, newId);
      ValueTupleAt(rows, newId, |rows| - 1);
    }
  }

  /** The values Get of a type reads back as the type's listed values. */
  lemma ValuesQuery(rows: seq<Dict>, entryType: string, newId: nat)
    requires AllValueRows(rows)
    ensures Query(EntryValues, rows, ParentFilter(entryType), newId).Ok?
    ensures DecodeValues(Query(EntryValues, rows, ParentFilter(entryType), newId).value) == Ok(ValuesListed(rows, entryType))
  {
    ParentFilterDecides(rows, entryType, newId);
    ValueRowsFiltered(rows, ParentMatcher(entryType));
    ValuesDecode(Filter(rows, ParentMatcher(entryType)), newId);
  }

  /** One more definition row read back adds its definition, listing its type's values, at the end. */
  lemma DefinitionStep(rows: seq<Dict>, values: seq<Dict>, i: int)
    requires AllDefinitionRows(rows) && AllValueRows(values) && 0 <= i < |rows|
    ensures rows[i] in rows
    ensures DefinitionsOfRows(rows[..i + 1], values)
            == DefinitionsOfRows(rows[..i], values)
               + [WellBeingDefinition(rows[i][1].1.s, rows[i][0].1.s, ValuesListed(values, rows[i][0].1.s), rows[i][2].1.b)]
  {
    assert rows[i] in rows;
    assert rows[..i + 1][..i] == rows[..i];
  }

  class WellBeingRepository {
    const store: MemoryStore

    function EntryRows(): seq<Dict>
      reads this, store
    {
      store.Table(EntryData)
    }

    function DefinitionRows(): seq<Dict>
      reads this, store
    {
      store.Table(EntryDefinitions)
    }

    function ValueRows(): seq<Dict>
      reads this, store
    {
      store.Table(EntryValues)
    }

    ghost predicate Valid()
      reads this, store
    {
      store.Valid() && AllEntryRows(EntryRows()) && AllDefinitionRows(DefinitionRows()) && AllValueRows(ValueRows())
    }

    constructor()
      ensures Valid() && fresh(store)
      ensures EntryRows() == [] && DefinitionRows() == [] && ValueRows() == []
    {
      store := new MemoryStore();
    }

    /** AddAsync: a plain append, with no check for an existing entry. */
    method Add(data: WellBeingData)
      requires Valid()
      modifies store
      ensures Valid()
      ensures EntryRows() == old(EntryRows()) + [EntryColumns(data)]
      ensures DefinitionRows() == old(DefinitionRows()) && ValueRows() == old(ValueRows())
    {
      NormalizeEntryColumns(data, store.nextGuid);
      TableNames();
      var r := store.Add(EntryData, EntryColumns(data));
    }

    /** RemoveAsync: deletes every entry of that day, category and type (ignoring case), keeping the others in order. */
    method Remove(date: nat, category: string, entryType: string)
      requires Valid()
      modifies store
      ensures Valid()
      ensures EntryRows() == Filter(old(EntryRows()), EntryKeeper(date, category, entryType))
      ensures DefinitionRows() == old(DefinitionRows()) && ValueRows() == old(ValueRows())
    {
      EntryFilterDecides(EntryRows(), date, category, entryType, 0);
      EntryRowsFiltered(EntryRows(), EntryKeeper(date, category, entryType));
      TableNames();
      var r := store.Remove(EntryData, EntryFilter(date, category, entryType));
    }

    /** GetWellBeingDataAsync: the first matching row rebuilt as an entry, or none. */
    method GetWellBeingData(date: nat, category: string, entryType: string) returns (r: Option<WellBeingData>)
      requires Valid()
      modifies store
      ensures Valid()
      ensures r == FirstEntry(old(EntryRows()), date, category, entryType)
      ensures EntryRows() == old(EntryRows()) && DefinitionRows() == old(DefinitionRows()) && ValueRows() == old(ValueRows())
    {
      EntryFilterDecides(EntryRows(), date, category, entryType, store.nextGuid);
      FirstEntryTuples(EntryRows(), date, category, entryType, store.nextGuid);
      TableNames();
      var results := store.Get(EntryData, EntryFilter(date, category, entryType));
      var tuples: seq<seq<Value>> := results.value;
      if |tuples| > 0 && |tuples[0]| >= 4 {
        var e := EntryOfTuple(tuples[0]);
        r := Some(e.value);
      } else {
        r := None;
      }
    }

    /** GetAllDataFromDbAsync: every stored row rebuilt as an entry, in table order. */
    method GetAllDataFromDb() returns (all: seq<WellBeingData>)
      requires Valid()
      modifies store
      ensures Valid()
      ensures all == StoredEntries(old(EntryRows()))
      ensures EntryRows() == old(EntryRows()) && DefinitionRows() == old(DefinitionRows()) && ValueRows() == old(ValueRows())
    {
      EntriesDecode(EntryRows(), store.nextGuid);
      TableNames();
      var tuples := store.GetAll(EntryData);
      var decoded := ReadEntries(tuples);
      all := decoded.value;
    }

    /** GetAllAsync: the stored entries that pass the in-memory filter, in table order. */
    method GetAll(startDate: Option<nat>, endDate: Option<nat>, dataTypes: Option<seq<(string, string)>>)
      returns (r: seq<WellBeingData>)
      requires Valid()
      modifies store
      ensures Valid()
      ensures r == Filter(StoredEntries(old(EntryRows())), EntryKeep(startDate, endDate, dataTypes))
      ensures EntryRows() == old(EntryRows()) && DefinitionRows() == old(DefinitionRows()) && ValueRows() == old(ValueRows())
    {
      var all := GetAllDataFromDb();
      r := Filter(all, EntryKeep(startDate, endDate, dataTypes));
    }

    /** CreateWellBeingTypeAsync: a plain append of a definition row, which receives a fresh id. */
    method CreateWellBeingType(category: string, entryType: string, allowMultipleSelection: bool)
      requires Valid()
      modifies store
      ensures Valid()
      ensures DefinitionRows() == old(DefinitionRows()) + [DefinitionColumns(category, entryType, allowMultipleSelection) + [("id", Guid(old(store.nextGuid)))]]
      ensures EntryRows() == old(EntryRows()) && ValueRows() == old(ValueRows())
    {
      NormalizeDefinitionColumns(category, entryType, allowMultipleSelection, store.nextGuid);
      TableNames();
      var r := store.Add(EntryDefinitions, DefinitionColumns(category, entryType, allowMultipleSelection));
    }

    /**
     * DeleteWellBeingTypeAsync: removes the definitions of that type in the
     * category `observation`, whatever `category` says; values are untouched.
     */
    method DeleteWellBeingType(category: string, entryType: string)
      requires Valid()
      modifies store
      ensures Valid()
      ensures DefinitionRows() == Filter(old(DefinitionRows()), DeleteTypeKeeper(entryType))
      ensures EntryRows() == old(EntryRows()) && ValueRows() == old(ValueRows())
    {
      DeleteTypeFilterDecides(DefinitionRows(), entryType);
      DefinitionRowsFiltered(DefinitionRows(), DeleteTypeKeeper(entryType));
      TableNames();
      var r := store.Remove(EntryDefinitions, DeleteTypeFilter(entryType));
    }

    /** AddWellBeingValueAsync: a plain append of a value row, which receives a fresh id. */
    method AddWellBeingValue(entryType: string, value: string, notable: bool)
      requires Valid()
      modifies store
      ensures Valid()
      ensures ValueRows() == old(ValueRows()) + [ValueColumns(entryType, value, notable) + [("id", Guid(old(store.nextGuid)))]]
      ensures EntryRows() == old(EntryRows()) && DefinitionRows() == old(DefinitionRows())
    {
      NormalizeValueColumns(entryType, value, notable, store.nextGuid);
      TableNames();
      var r := store.Add(EntryValues, ValueColumns(entryType, value, notable));
    }

    /** DeleteWellBeingValueAsync: removes the rows with that type and that value (ignoring case). */
    method DeleteWellBeingValue(entryType: string, value: string)
      requires Valid()
      modifies store
      ensures Valid()
      ensures ValueRows() == Filter(old(ValueRows()), ValueKeeper(entryType, value))
      ensures EntryRows() == old(EntryRows()) && DefinitionRows() == old(DefinitionRows())
    {
      ValueFilterDecides(ValueRows(), entryType, value);
      ValueRowsFiltered(ValueRows(), ValueKeeper(entryType, value));
      TableNames();
      var r := store.Remove(EntryValues, ValueFilter(entryType, value));
    }

    /** GetWellBeingValuesAsync: the values of the type with their notable flags, in table order. */
    method GetWellBeingValues(entryType: string) returns (r: seq<WellBeingValue>)
      requires Valid()
      modifies store
      ensures Valid()
      ensures r == ValuesListed(old(ValueRows()), entryType)
      ensures EntryRows() == old(EntryRows()) && DefinitionRows() == old(DefinitionRows()) && ValueRows() == old(ValueRows())
    {
      ValuesQuery(ValueRows(), entryType, store.nextGuid);
      TableNames();
      var results := store.Get(EntryValues, ParentFilter(entryType));
      var decoded := ReadValues(results.value);
      r := decoded.value;
    }

    /** GetWellBeingDefinitionAsync: one definition per definition row of the category, each listing its type's values. */
    method GetWellBeingDefinition(category: string) returns (r: seq<WellBeingDefinition>)
      requires Valid()
      modifies store
      ensures Valid()
      ensures r == DefinitionsListed(old(DefinitionRows()), old(ValueRows()), category)
      ensures EntryRows() == old(EntryRows()) && DefinitionRows() == old(DefinitionRows()) && ValueRows() == old(ValueRows())
    {
      ghost var matching := Filter(DefinitionRows(), CategoryMatcher(category));
      ghost var newId := store.nextGuid;
      CategoryFilterDecides(DefinitionRows(), category, newId);
      DefinitionRowsFiltered(DefinitionRows(), CategoryMatcher(category));
      TableNames();
      var results := store.Get(EntryDefinitions, CategoryFilter(category));
      r := ReadDefinitions(results.value, matching, newId);
    }

    /** The loop of GetWellBeingDefinitionAsync: each definition tuple read, and its type's values fetched. */
    method ReadDefinitions(tuples: seq<seq<Value>>, ghost matching: seq<Dict>, ghost newId: nat) returns (r: seq<WellBeingDefinition>)
      requires Valid() && AllDefinitionRows(matching)
      requires tuples == ProjectAll(EntryDefinitions, matching, newId)
      modifies store
      ensures Valid()
      ensures r == DefinitionsOfRows(matching, old(ValueRows()))
      ensures EntryRows() == old(EntryRows()) && DefinitionRows() == old(DefinitionRows()) && ValueRows() == old(ValueRows())
    {
      ghost var values := ValueRows();
      r := [];
      var i := 0;
      while i < |tuples|
        invariant 0 <= i <= |tuples| == |matching|
        invariant Valid()
        invariant EntryRows() == old(EntryRows()) && DefinitionRows() == old(DefinitionRows()) && ValueRows() == values
        invariant r == DefinitionsOfRows(matching[..i], values)
      {
        DefinitionTupleAt(matching, newId, i);
        if |tuples[i]| >= 3 {
          var entryType := TextOf(tuples[i][1]);
          var cat := TextOf(tuples[i][2]);
          var allowMultiple := ToBoolean(tuples[i][3]);
          var valuesDef := GetWellBeingValues(entryType);
          DefinitionStep(matching, values, i);
          r := r + [WellBeingDefinition(cat, entryType, valuesDef, allowMultiple.value)];
        }
        i := i + 1;
      }
      assert matching[..i] == matching;
    }
  }

  // ---- cross-layer properties ----

  /** On a fresh key, an entry added is the entry read back, values in the same order. */
  lemma AddThenGet(rows: seq<Dict>, e: WellBeingData)
    requires AllEntryRows(rows)
    requires forall row :: row in rows ==> !EntryMatches(row, e.date, e.category, e.entryType)
    ensures AllEntryRows(rows + [EntryColumns(e)])
    ensures FirstEntry(rows + [EntryColumns(e)], e.date, e.category, e.entryType) == Some(e)
  {
    var m := EntryMatcher(e.date, e.category, e.entryType);
    FilterAppend(rows, [EntryColumns(e)], m);
    FilterTrivial(rows, m);
    assert Filter([EntryColumns(e)], m) == Filter([EntryColumns(e)][..0], m) + [EntryColumns(e)];
  }

  /** Adding the same entry twice leaves two more rows under its key. */
  lemma AddTwiceKeepsBoth(rows: seq<Dict>, e: WellBeingData)
    ensures var m := EntryMatcher(e.date, e.category, e.entryType);
      |Filter(rows + [EntryColumns(e)] + [EntryColumns(e)], m)| == |Filter(rows, m)| + 2
  {
    var m := EntryMatcher(e.date, e.category, e.entryType);
    FilterAppend(rows + [EntryColumns(e)], [EntryColumns(e)], m);
    FilterAppend(rows, [EntryColumns(e)], m);
    assert [EntryColumns(e)][..0] == [];
    assert EntryMatches(EntryColumns(e), e.date, e.category, e.entryType);
  }

  /** Remove keeps exactly the non-matching rows in order, and changes nothing when none match. */
  lemma RemoveKeepsOthers(rows: seq<Dict>, date: nat, category: string, entryType: string)
    ensures var kept := Filter(rows, EntryKeeper(date, category, entryType));
      && (forall row :: row in kept <==> row in rows && !EntryMatches(row, date, category, entryType))
      && Subseq(kept, rows)
      && ((forall row :: row in rows ==> !EntryMatches(row, date, category, entryType)) ==> kept == rows)
  {
    FilterSpec(rows, EntryKeeper(date, category, entryType));
    FilterTrivial(rows, EntryKeeper(date, category, entryType));
  }

  lemma ObservationFolded()
    ensures Fold("observation") == "observation"
  {
  }

  /** Deleting a type never removes a definition outside the category `observation`, whatever category was asked for. */
  lemma DeleteTypeHardcodesObservation(rows: seq<Dict>, entryType: string, row: Dict)
    requires row in rows && DefinitionRow(row) && Fold(row[1].1.s) != "observation"
    ensures row in Filter(rows, DeleteTypeKeeper(entryType))
  {
    ObservationFolded();
    FilterSpec(rows, DeleteTypeKeeper(entryType));
  }

  /** It removes every `observation` definition of the type, in any letter case. */
  lemma DeleteTypeRemovesObservation(rows: seq<Dict>, entryType: string, row: Dict)
    requires DefinitionRow(row) && Fold(row[0].1.s) == Fold(entryType) && Fold(row[1].1.s) == "observation"
    ensures row !in Filter(rows, DeleteTypeKeeper(entryType))
  {
    ObservationFolded();
    FilterSpec(rows, DeleteTypeKeeper(entryType));
  }

  /** Deleting a value spares the same value under any other type. */
  lemma DeleteValueIsolation(rows: seq<Dict>, entryType: string, value: string, row: Dict)
    requires row in rows && ValueRow(row) && Fold(row[0].1.s) != Fold(entryType)
    ensures row in Filter(rows, ValueKeeper(entryType, value))
  {
    FilterSpec(rows, ValueKeeper(entryType, value));
  }

  /** A value added to a type is listed last for that type, with its notable flag. */
  lemma NotableRoundTrip(rows: seq<Dict>, entryType: string, value: string, notable: bool, id: nat)
    requires AllValueRows(rows)
    ensures AllValueRows(rows + [ValueColumns(entryType, value, notable) + [("id", Guid(id))]])
    ensures ValuesListed(rows + [ValueColumns(entryType, value, notable) + [("id", Guid(id))]], entryType)
            == ValuesListed(rows, entryType) + [WellBeingValue(value, notable)]
  {
    var row := ValueColumns(entryType, value, notable) + [("id", Guid(id))];
    var m := ParentMatcher(entryType);
    FilterAppend(rows, [row], m);
    assert Filter([row], m) == Filter([row][..0], m) + [row];
  }

  /** With no end date GetAllAsync returns nothing; with one, only entries after it. */
  lemma EndDateNegated(es: seq<WellBeingData>, startDate: Option<nat>, endDate: Option<nat>, dataTypes: Option<seq<(string, string)>>)
    ensures endDate.None? ==> Filter(es, EntryKeep(startDate, endDate, dataTypes)) == []
    ensures forall e :: e in Filter(es, EntryKeep(startDate, endDate, dataTypes)) ==> endDate.Some? && e.date > endDate.value
  {
    FilterSpec(es, EntryKeep(startDate, endDate, dataTypes));
    FilterTrivial(es, EntryKeep(startDate, endDate, dataTypes));
  }

  /**
   * An entry is returned exactly when it is stored, is on or after the
   * start date, is strictly after the end date (an end date is needed), and
   * its (category, type) matches a listed pair ignoring case, unless no
   * pair is listed.
   */
  lemma GetAllMembership(es: seq<WellBeingData>, startDate: Option<nat>, endDate: Option<nat>,
                         dataTypes: Option<seq<(string, string)>>, x: WellBeingData)
    ensures x in Filter(es, EntryKeep(startDate, endDate, dataTypes))
      <==> && x in es
           && (startDate.Some? ==> x.date >= startDate.value)
           && endDate.Some? && x.date > endDate.value
           && (dataTypes.Some? && |dataTypes.value| > 0 ==>
                 exists i :: 0 <= i < |dataTypes.value|
                   && Fold(x.category) == Fold(dataTypes.value[i].0) && Fold(x.entryType) == Fold(dataTypes.value[i].1))
  {
    FilterSpec(es, EntryKeep(startDate, endDate, dataTypes));
    assert EntryKeep(startDate, endDate, dataTypes)(x) == KeepEntry(x, startDate, endDate, dataTypes);
  }

  /** The returned entries keep the stored order. */
  lemma GetAllKeepsOrder(es: seq<WellBeingData>, startDate: Option<nat>, endDate: Option<nat>, dataTypes: Option<seq<(string, string)>>)
    ensures Subseq(Filter(es, EntryKeep(startDate, endDate, dataTypes)), es)
  {
    FilterSpec(es, EntryKeep(startDate, endDate, dataTypes));
  }

  /**
   * The end-to-end scenario: an entry of 2024-01-10 asked for with the
   * range 2024-01-01 to 2024-12-31 and its own (category, type) is not
   * returned.
   */
  lemma ScenarioGetAllIsEmpty()
    ensures var day := Calendar.DayNumber(Calendar.Date(2024, 1, 10));
      var start := Calendar.DayNumber(Calendar.Date(2024, 1, 1));
      var end := Calendar.DayNumber(Calendar.Date(2024, 12, 31));
      Filter([WellBeingData(day, "observation", "mood", ["happy"])],
             EntryKeep(Some(start), Some(end), Some([("observation", "mood")]))) == []
  {
    var day := Calendar.DayNumber(Calendar.Date(2024, 1, 10));
    var end := Calendar.DayNumber(Calendar.Date(2024, 12, 31));
    Calendar.DaysBeforeMonthMonotone(2024, 2, 12);
    assert day <= end;
    var es := [WellBeingData(day, "observation", "mood", ["happy"])];
    var keep := EntryKeep(Some(Calendar.DayNumber(Calendar.Date(2024, 1, 1))), Some(end), Some([("observation", "mood")]));
    FilterTrivial(es, keep);
  }

  /** Creating a type and adding a value to it lists that value under the new definition. */
  lemma ScenarioDefinitionCarriesValue(defs: seq<Dict>, values: seq<Dict>, category: string, entryType: string,
                                       allowMultiple: bool, value: string, notable: bool, id1: nat, id2: nat)
    requires AllDefinitionRows(defs) && AllValueRows(values)
    ensures var def := DefinitionColumns(category, entryType, allowMultiple) + [("id", Guid(id1))];
      var val := ValueColumns(entryType, value, notable) + [("id", Guid(id2))];
      && AllDefinitionRows(defs + [def]) && AllValueRows(values + [val])
      && var listed := DefinitionsListed(defs + [def], values + [val], category);
      |listed| > 0
      && listed[|listed| - 1] == WellBeingDefinition(category, entryType, ValuesListed(values, entryType) + [WellBeingValue(value, notable)], allowMultiple)
  {
    var def := DefinitionColumns(category, entryType, allowMultiple) + [("id", Guid(id1))];
    var val := ValueColumns(entryType, value, notable) + [("id", Guid(id2))];
    var m := CategoryMatcher(category);
    FilterAppend(defs, [def], m);
    assert Filter([def], m) == Filter([def][..0], m) + [def];
    NotableRoundTrip(values, entryType, value, notable, id2);
  }
}
