# Well-being monitoring: a verified model of the data core

This project models, in Dafny, the core of the well-being monitoring
application: a service that records dated entries (a category such as
"observation" or "symptom", a type, and a list of values), keeps a
catalogue of entry definitions whose values may be flagged notable, and a
browser front end that records, explores and calendars those entries.

The model covers:

- **the in-memory table store** (`Store`, class `Store.MemoryStore`): case-insensitive tables of
  rows, value normalisation (dates, booleans, string lists, surrogate ids),
  per-column comparison for filters, and the positional projection of rows;
- **the well-being repository** (`Repository`, class `Repository.WellBeingRepository`) built on the
  store: storing, deleting and querying entries, definitions and
  definition values, including the date-range query;
- **the Postgres statement builders** (`PostgresSql`): the SQL text and
  parameter lists of insert, delete, select and update;
- **the front-end API layer** (`Api`): the normalisation of the service's
  JSON replies into entries, definitions and type lists;
- **the notable-value lookups** (`NotableValues`, `Notable`);
- **the four views and the application shell**: the recording feed
  (`RecordingFeed`), the data-entry form (`DataEntry`), the data explorer
  (`DataExplorer`), the month calendar (`CalendarView`) and the calendar
  data the shell assembles (`AppCalendar`).

Shared definitions live in `Text` (ASCII case folding, trimming, decimal
text), `Ordering` (code-unit and locale orders, a stable sort,
first-occurrence de-duplication, filtering), `Calendar` (proleptic
Gregorian day numbers and `YYYY-MM-DD` keys) and `Wrappers` (`Option`,
`Result`).

Every loop of the source is a method proved equal to a recursive
specification function, and the properties the source relies on are
lemmas about those functions.

## Model

| member | source | states |
|---|---|---|
| Store.Lookup | WebApi/DataBase/InMemoryGenericRepository.cs:183 | `TryGetValue` finds a value exactly when some entry has the key, and the value found is that entry's |
| Store.Put | WebApi/DataBase/InMemoryGenericRepository.cs:81 | assigning `row[key]` makes the key read back the new value, leaves every other key's value alone, keeps the key order when the key exists and appends it otherwise |
| Store.PutAllLookup | WebApi/DataBase/InMemoryGenericRepository.cs:79-82 | after assigning distinct columns in turn, each listed column holds its new value and every other column is unchanged |
| Store.LookupAt | WebApi/DataBase/InMemoryGenericRepository.cs:183 | with distinct keys the lookup of the i-th key finds the i-th value |
| Store.ToBoolean | WebApi/DataBase/InMemoryGenericRepository.cs:157 | `Convert.ToBoolean`: a boolean converts to itself, null to false, a number to whether it is non-zero; text converts exactly when, trimmed and ignoring case, it is "true" or "false", and otherwise throws a format fault; any other value throws an invalid-cast fault |
| Store.DayOf | WebApi/DataBase/InMemoryGenericRepository.cs:210-211 | a date is its own day, a date-time is truncated to its day, text has a day exactly when it parses as a date and then that date's day, and anything else throws a format fault |
| Store.NormalizeValue | WebApi/DataBase/InMemoryGenericRepository.cs:141-177 | the entry date column never throws, stores the day of any value that has one and keeps any other value; the two flag columns hold the `Convert.ToBoolean` result and throw its fault; a list of objects in `values_list` becomes a string array of the items' texts, item by item, with null as empty text; every other column keeps its value; only a flag conversion can throw |
| Store.ValuesEqual | WebApi/DataBase/InMemoryGenericRepository.cs:196-205 | when either side is null the values are equal exactly when both are |
| Store.MatchesAll | WebApi/DataBase/InMemoryGenericRepository.cs:179-194 | a row matches exactly when every filter holds for it, so no filters match every row |
| Store.ProjectAll | WebApi/DataBase/InMemoryGenericRepository.cs:57-61 | every row is projected, in table order, row i with its own fresh id |
| Store.Project | WebApi/DataBase/InMemoryGenericRepository.cs:233-268 | the three known tables project to four fields, and an entry row's fourth field is a string list |
| Store.SplitPartition | WebApi/DataBase/InMemoryGenericRepository.cs:44 | filtering splits the table into the matching rows and the rest, each in table order, together every row once |
| Store.SplitSides | WebApi/DataBase/InMemoryGenericRepository.cs:44 | the matching part holds only matching rows and the rest only non-matching ones |
| Store.SplitOrder | WebApi/DataBase/InMemoryGenericRepository.cs:44 | both parts keep table order |
| Store.SplitCount | WebApi/DataBase/InMemoryGenericRepository.cs:44 | the two parts together hold every row exactly once |
| Store.SplitDecided | WebApi/DataBase/InMemoryGenericRepository.cs:44-58 | when no test throws the split is the filter by the match and by its negation |
| Store.SplitOk | WebApi/DataBase/InMemoryGenericRepository.cs:44 | the walk over the rows succeeds exactly when no row's filter test throws |
| Store.SplitErrPersists | WebApi/DataBase/InMemoryGenericRepository.cs:57-58 | once a prefix of the rows throws, the whole walk throws that same fault |
| Store.UpdateRows | WebApi/DataBase/InMemoryGenericRepository.cs:77-83 | the update walk returns as many rows as it was given |
| Store.UpdateRowsSpec | WebApi/DataBase/InMemoryGenericRepository.cs:77-83 | every row is left as it was or is a matching row with the columns assigned; when no test throws exactly the matching rows are assigned, and no test throws exactly when the walk reports no fault |
| Store.UpdateTableRows | WebApi/DataBase/InMemoryGenericRepository.cs:77-83 | the nested update loops compute the update walk and keep every row well formed |
| Store.NormalizeFilters | WebApi/DataBase/InMemoryGenericRepository.cs:129-137 | the normalising loop builds the normalised dictionary of its input |
| Store.NormalizeRow | WebApi/DataBase/InMemoryGenericRepository.cs:108-127 | the row loop builds the normalised row, with the catalogue id added |
| Store.MatchesFilters | WebApi/DataBase/InMemoryGenericRepository.cs:179-194 | the loop that returns at the first failing filter computes the match of the row |
| Store.SplitRows | WebApi/DataBase/InMemoryGenericRepository.cs:57-58 | the row loop computes the split of the table |
| Store.KeptRowsOk | WebApi/DataBase/InMemoryGenericRepository.cs:44 | the `RemoveAll` walk ends without a fault exactly when the row split succeeds, and then keeps exactly the rows the split puts aside |
| Store.RemoveAllSpec | WebApi/DataBase/InMemoryGenericRepository.cs:44 | `RemoveAll` fails exactly when some row test throws; without a throw exactly the non-matching rows remain in order; when row k is the first to throw, the non-matching rows before k sit at the front and the rest of the list is as it was, its length unchanged |
| Store.RemoveAllFault | WebApi/DataBase/InMemoryGenericRepository.cs:44 | a first throw at row k leaves the rows kept before k followed by the original list from that length on, with that fault |
| Store.RemoveAllUnchanged | WebApi/DataBase/InMemoryGenericRepository.cs:44 | when no row before the first throwing one matches, the list is left exactly as it was |
| Store.RemoveAllInPlace | WebApi/DataBase/InMemoryGenericRepository.cs:44 | the in-place walk that copies each kept row into the first free slot leaves the list and fault of the specification |
| Store.MemoryStore.constructor | WebApi/DataBase/InMemoryGenericRepository.cs:15-23 | a new store has no tables |
| Store.MemoryStore.GetOrCreateTable | WebApi/DataBase/InMemoryGenericRepository.cs:103-106 | the table's rows are returned and registered under the case-folded name, with nothing else changed |
| Store.MemoryStore.Add | WebApi/DataBase/InMemoryGenericRepository.cs:25-35 | the normalised row is appended at the end of its table; a conversion that throws leaves the table as it was |
| Store.MemoryStore.Remove | WebApi/DataBase/InMemoryGenericRepository.cs:37-47 | a filter that throws while normalising leaves the table unchanged; otherwise the table becomes what `RemoveAll` leaves, with its fault: exactly the non-matching rows in order when no test throws, the partly compacted list when one does |
| Store.MemoryStore.Get | WebApi/DataBase/InMemoryGenericRepository.cs:49-64 | the result is the matching rows projected in table order, and the store is unchanged apart from registering the table |
| Store.MemoryStore.Update | WebApi/DataBase/InMemoryGenericRepository.cs:66-86 | the table becomes the update walk's rows: matching rows get the normalised columns, and a throwing test stops the walk with the earlier rows updated |
| Store.MemoryStore.GetAll | WebApi/DataBase/InMemoryGenericRepository.cs:88-101 | every row of the table, projected, in table order |
| Store.FoldNames | WebApi/DataBase/InMemoryGenericRepository.cs:139 | the table and column names in use are already in folded form |
| Store.NormalizeUnchanged | WebApi/DataBase/InMemoryGenericRepository.cs:129-137 | normalisation is idempotent: a dictionary of folded, distinct keys and already normal values normalises to itself |
| Store.NormalizeIntoUnchanged | WebApi/DataBase/InMemoryGenericRepository.cs:129-137 | normalising already-normal entries appends them unchanged |
| Store.NormalizeWellFormed | WebApi/DataBase/InMemoryGenericRepository.cs:110-114 | a normalised dictionary holds each lower-cased column name once |
| Store.NormalizeIgnoresCase | WebApi/DataBase/InMemoryGenericRepository.cs:129-139 | table and column names differing only in case normalise to the same dictionary |
| Store.NormalizedRowId | WebApi/DataBase/InMemoryGenericRepository.cs:116-124 | a catalogue row without an id gets the fresh id appended; other rows get no id added |
| Store.ValuesEqualIgnoresCase | WebApi/DataBase/InMemoryGenericRepository.cs:207-208 | comparison depends on table and column names only up to case |
| Store.StringsIgnoreCase | WebApi/DataBase/InMemoryGenericRepository.cs:215-218 | text values compare ignoring case, symmetrically |
| Store.DateComparesByDay | WebApi/DataBase/InMemoryGenericRepository.cs:208-213 | in the entry date column a date-time equals its day whatever its time, and a written date equals its day |
| Store.BooleansCompareAfterConversion | WebApi/DataBase/InMemoryGenericRepository.cs:225-228 | a stored boolean equals a filter value exactly when that value converts to the same boolean, and throws exactly when it does not convert |
| Store.StringArraysNeverEqual | WebApi/DataBase/InMemoryGenericRepository.cs:230 | string arrays compare by reference, so a stored list never equals a filter list |
| Store.MatchesIgnoresCase | WebApi/DataBase/InMemoryGenericRepository.cs:179-194 | a row's filter test depends on the table name only up to case |
| Store.SplitIgnoresCase | WebApi/DataBase/InMemoryGenericRepository.cs:57-58 | the row walk depends on the table name only up to case |
| Store.FiltersIgnoreCase | WebApi/DataBase/InMemoryGenericRepository.cs:129-139 | filter dictionaries whose column names differ only in case, on table names that differ only in case, normalise alike, and so get, keep and remove the same rows |
| Store.ProjectEntryData | WebApi/DataBase/InMemoryGenericRepository.cs:235-246 | an entry row projects to its day as a midnight date-time, its category, its type and its string list (empty when none is stored) |
| Store.ProjectCatalogue | WebApi/DataBase/InMemoryGenericRepository.cs:248-264 | catalogue rows project their stored id or the fresh one, then type and category, or parent type and value, then the stored `allows_multiple` or `is_notable` flag, false when none or null is stored |
| Repository.EntryOfTuple | WebApi/DataBase/WellBeingDataRepository.cs:56-63 | a tuple reads back as an entry exactly when its first field is a date-time; otherwise the cast throws |
| Repository.DecodeEntriesErrPersists | WebApi/DataBase/WellBeingDataRepository.cs:94-104 | once a prefix of the tuples throws, reading all of them throws the same fault |
| Repository.DecodeValuesErrPersists | WebApi/DataBase/WellBeingDataRepository.cs:166-175 | once a prefix of the value tuples throws, reading all of them throws the same fault |
| Repository.ReadEntries | WebApi/DataBase/WellBeingDataRepository.cs:92-106 | the loop over the stored tuples computes their decoding into entries |
| Repository.ReadValues | WebApi/DataBase/WellBeingDataRepository.cs:165-177 | the loop over the value tuples computes their decoding into (value, notable) pairs |
| Repository.StoredEntries | WebApi/DataBase/WellBeingDataRepository.cs:94-104 | one entry per stored row |
| Repository.ValuesOfRows | WebApi/DataBase/WellBeingDataRepository.cs:166-175 | one (value, notable) pair per stored value row |
| Repository.DefinitionsOfRows | WebApi/DataBase/WellBeingDataRepository.cs:186-196 | one definition per definition row |
| Repository.NormalizeEntryColumns | WebApi/DataBase/WellBeingDataRepository.cs:22-29 | an entry is stored exactly as given: its day, category, type and values list |
| Repository.NormalizeDefinitionColumns | WebApi/DataBase/WellBeingDataRepository.cs:113-119 | a definition is stored as given, plus a fresh id |
| Repository.NormalizeValueColumns | WebApi/DataBase/WellBeingDataRepository.cs:138-144 | a value is stored as given, plus a fresh id |
| Repository.QueryDecided | WebApi/DataBase/WellBeingDataRepository.cs:42-55 | a filter that decides every row by a predicate selects exactly the rows satisfying it and removes exactly those |
| Repository.EntryRowMatches | WebApi/DataBase/WellBeingDataRepository.cs:36-41 | the entry key filter matches a stored entry row exactly when day, category and type agree, the texts ignoring case |
| Repository.DeleteTypeRowMatches | WebApi/DataBase/WellBeingDataRepository.cs:126-130 | the delete-type filter matches a definition row exactly when its type agrees and its category is `observation`, ignoring case |
| Repository.ValueRowMatches | WebApi/DataBase/WellBeingDataRepository.cs:151-155 | the value filter matches exactly the rows with that type and value, ignoring case |
| Repository.ParentRowMatches | WebApi/DataBase/WellBeingDataRepository.cs:163 | the parent filter matches exactly the value rows of the type |
| Repository.CategoryRowMatches | WebApi/DataBase/WellBeingDataRepository.cs:183 | the category filter matches exactly the definition rows of the category |
| Repository.EntryFilterDecides | WebApi/DataBase/WellBeingDataRepository.cs:36-55 | Get and Remove with the entry key select, and drop, exactly the entries of that day, category and type |
| Repository.DeleteTypeFilterDecides | WebApi/DataBase/WellBeingDataRepository.cs:126-131 | deleting a type drops exactly the `observation` definitions of the type |
| Repository.ValueFilterDecides | WebApi/DataBase/WellBeingDataRepository.cs:151-156 | deleting a value drops exactly the rows with that type and value |
| Repository.ParentFilterDecides | WebApi/DataBase/WellBeingDataRepository.cs:163-164 | the values query selects exactly the value rows of the type |
| Repository.CategoryFilterDecides | WebApi/DataBase/WellBeingDataRepository.cs:183-184 | the definitions query selects exactly the definition rows of the category |
| Repository.EntryTupleRoundTrip | WebApi/DataBase/WellBeingDataRepository.cs:56-63 | the tuple of a stored entry row reads back as that entry |
| Repository.EntryTupleAt | WebApi/DataBase/WellBeingDataRepository.cs:94-104 | tuple i of the projected entry table reads back as the i-th stored entry |
| Repository.ValueTupleAt | WebApi/DataBase/WellBeingDataRepository.cs:168-174 | tuple i of the projected value table holds the i-th row's value, never null, and a convertible notable flag |
| Repository.DefinitionTupleAt | WebApi/DataBase/WellBeingDataRepository.cs:188-194 | tuple i of the projected definition table holds the i-th row's type, category and multiple-selection flag |
| Repository.FirstEntryTuples | WebApi/DataBase/WellBeingDataRepository.cs:55-66 | the Get by entry key is empty exactly when no entry matches, and otherwise its first tuple is the first matching entry |
| Repository.EntriesDecode | WebApi/DataBase/WellBeingDataRepository.cs:89-107 | reading back the projection of the stored entry rows yields exactly the stored entries, in order |
| Repository.ValuesDecode | WebApi/DataBase/WellBeingDataRepository.cs:166-175 | reading back the projection of the value rows yields exactly their (value, notable) pairs, in order |
| Repository.ValuesQuery | WebApi/DataBase/WellBeingDataRepository.cs:160-178 | the values query of a type succeeds and reads back as the type's listed values |
| Repository.DefinitionStep | WebApi/DataBase/WellBeingDataRepository.cs:186-195 | each further definition row adds its definition, listing its type's values, at the end |
| Repository.WellBeingRepository.constructor | WebApi/DataBase/WellBeingDataRepository.cs:13-17 | a repository over a fresh store holds no entries, definitions or values |
| Repository.WellBeingRepository.Add | WebApi/DataBase/WellBeingDataRepository.cs:19-31 | the entry row is appended, with no check for an existing entry, and the other tables are unchanged |
| Repository.WellBeingRepository.Remove | WebApi/DataBase/WellBeingDataRepository.cs:33-44 | exactly the entries of that day, category and type are deleted, ignoring case, the rest kept in order |
| Repository.WellBeingRepository.GetWellBeingData | WebApi/DataBase/WellBeingDataRepository.cs:46-67 | the first matching entry, or none, with nothing stored changed |
| Repository.WellBeingRepository.GetAllDataFromDb | WebApi/DataBase/WellBeingDataRepository.cs:89-107 | every stored entry, in table order |
| Repository.WellBeingRepository.GetAll | WebApi/DataBase/WellBeingDataRepository.cs:69-88 | the stored entries that pass the date and type filter as written, in table order |
| Repository.WellBeingRepository.CreateWellBeingType | WebApi/DataBase/WellBeingDataRepository.cs:110-121 | a definition row with a fresh id is appended, with no check for an existing one |
| Repository.WellBeingRepository.DeleteWellBeingType | WebApi/DataBase/WellBeingDataRepository.cs:123-133 | the definitions of the type in the category `observation` are removed, whatever category was asked for; values are untouched |
| Repository.WellBeingRepository.AddWellBeingValue | WebApi/DataBase/WellBeingDataRepository.cs:135-146 | a value row with a fresh id is appended |
| Repository.WellBeingRepository.DeleteWellBeingValue | WebApi/DataBase/WellBeingDataRepository.cs:148-158 | the rows with that type and value are removed, ignoring case |
| Repository.WellBeingRepository.GetWellBeingValues | WebApi/DataBase/WellBeingDataRepository.cs:160-178 | the values of the type with their notable flags, in table order |
| Repository.WellBeingRepository.GetWellBeingDefinition | WebApi/DataBase/WellBeingDataRepository.cs:180-199 | one definition per definition row of the category, each listing its type's values |
| Repository.WellBeingRepository.ReadDefinitions | WebApi/DataBase/WellBeingDataRepository.cs:185-196 | the loop turns each definition tuple into a definition carrying its type's values, in row order, leaving the tables as they were |
| Repository.AddThenGet | WebApi/DataBase/WellBeingDataRepository.cs:19-67 | on a fresh key the entry added is the entry read back, values in the same order |
| Repository.AddTwiceKeepsBoth | WebApi/DataBase/WellBeingDataRepository.cs:19-31 | adding the same entry twice leaves two more rows under its key |
| Repository.RemoveKeepsOthers | WebApi/DataBase/WellBeingDataRepository.cs:33-44 | remove keeps exactly the non-matching rows, in order, and changes nothing when none match |
| Repository.ObservationFolded | WebApi/DataBase/WellBeingDataRepository.cs:129 | the hard-coded category is already in folded form |
| Repository.DeleteTypeHardcodesObservation | WebApi/DataBase/WellBeingDataRepository.cs:126-131 | deleting a type never removes a definition outside the category `observation`, whatever category was asked for |
| Repository.DeleteTypeRemovesObservation | WebApi/DataBase/WellBeingDataRepository.cs:126-131 | deleting a type removes every `observation` definition of it, in any letter case |
| Repository.DeleteValueIsolation | WebApi/DataBase/WellBeingDataRepository.cs:151-156 | deleting a value spares the same value under any other type |
| Repository.NotableRoundTrip | WebApi/DataBase/WellBeingDataRepository.cs:135-178 | a value added to a type is listed last for that type, with its notable flag |
| Repository.EndDateNegated | WebApi/DataBase/WellBeingDataRepository.cs:77-78 | the end-date test is negated as written: with no end date nothing is returned, and with one only entries strictly after it |
| Repository.GetAllMembership | WebApi/DataBase/WellBeingDataRepository.cs:76-84 | an entry is returned exactly when it is stored, on or after the start date, strictly after the end date (which must be given), and matches a listed (category, type) ignoring case unless none is listed |
| Repository.GetAllKeepsOrder | WebApi/DataBase/WellBeingDataRepository.cs:76-85 | the returned entries keep the stored order |
| Repository.ScenarioGetAllIsEmpty | WebApi/DataBase/WellBeingDataRepository.cs:76-84 | an entry of 2024-01-10 asked for with the range 2024-01-01 to 2024-12-31 and its own category and type is not returned |
| Repository.ScenarioDefinitionCarriesValue | WebApi/DataBase/WellBeingDataRepository.cs:110-199 | creating a type and adding a value to it lists the value under the new definition |
| PostgresSql.AddParameters | WebApi/DataBase/GenericPostgresRepository.cs:29-32 | the binding loop appends one parameter per entry, named `@` plus prefix plus key, a null bound as DBNull |
| PostgresSql.BuildUpdate | WebApi/DataBase/GenericPostgresRepository.cs:83-95 | the update command is its SET and WHERE text with the column parameters followed by the `f_` filter parameters |
| PostgresSql.BindingsNamePlaceholders | WebApi/DataBase/GenericPostgresRepository.cs:25-32 | the parameters bound are exactly the placeholders written, in the same order |
| PostgresSql.BindingsValues | WebApi/DataBase/GenericPostgresRepository.cs:31 | a parameter is DBNull exactly when its value is null, and otherwise carries the value |
| PostgresSql.InsertShape | WebApi/DataBase/GenericPostgresRepository.cs:21-36 | the INSERT lists the columns, then the placeholders of the parameters actually bound, one per column in the same order |
| PostgresSql.DeleteWithoutFilters | WebApi/DataBase/GenericPostgresRepository.cs:41-42 | with no filters the DELETE text ends in `WHERE ` and binds nothing |
| PostgresSql.SelectWithoutFilters | WebApi/DataBase/GenericPostgresRepository.cs:57-60 | with no filters the SELECT has no WHERE clause |
| PostgresSql.SelectSharesDeleteWhere | WebApi/DataBase/GenericPostgresRepository.cs:41-66 | with filters, SELECT and DELETE share the same WHERE clause and the same parameters |
| PostgresSql.DeleteOneFilter | WebApi/DataBase/GenericPostgresRepository.cs:41-48 | one filter gives the single term `k = @k` and the single parameter `@k` |
| PostgresSql.SelectAllText | WebApi/DataBase/GenericPostgresRepository.cs:104 | the get-all text is the bare SELECT, with no parameters |
| PostgresSql.BindingsDistinct | WebApi/DataBase/GenericPostgresRepository.cs:29-32 | distinct keys give distinct parameter names |
| PostgresSql.UpdateBindsSharedColumnTwice | WebApi/DataBase/GenericPostgresRepository.cs:83-95 | a column both assigned and filtered on is bound twice under two different names |
| PostgresSql.UpdateParametersDistinct | WebApi/DataBase/GenericPostgresRepository.cs:83-95 | all parameter names of an UPDATE are distinct when each dictionary's keys are and no assigned column starts with `f_` |
| Api.NormaliseDate | web-frontend/src/api.ts:3-11 | a string is cut to its first ten characters, null and undefined give the empty text, and a string or date never gives more than ten characters |
| Api.PickFirstOf | web-frontend/src/api.ts:87-94 | the loop that returns at the first key present computes `pickFirst` |
| Api.PickFirstSpec | web-frontend/src/api.ts:87-94 | the value of the earliest key present is returned, and undefined when no key is present |
| Api.PascalCaseWins | web-frontend/src/api.ts:87-101 | a PascalCase property hides its camelCase twin |
| Api.NormaliseDateIdempotent | web-frontend/src/api.ts:3-11 | normalising a normalised date changes nothing |
| Api.NormaliseDateOfDate | web-frontend/src/api.ts:7-9 | a date from year 100 to 9999 becomes its `YYYY-MM-DD` key, which reads back as the same day |
| Api.ToBooleanSpec | web-frontend/src/api.ts:13-17 | booleans are kept, a string is true exactly when it is "true" in any letter case, null and undefined are false, and a boolean survives being written as text and read back |
| Api.TextFieldTrimmed | web-frontend/src/api.ts:99-100 | a text field comes back trimmed, and empty when none of its keys is present |
| Api.NormaliseEntrySpec | web-frontend/src/api.ts:96-115 | the values of an array are converted one by one in order, null or undefined give none, any other value gives one; category and type are trimmed; `Values` wins over `values` |
| Api.NormaliseValueOfRecord | web-frontend/src/api.ts:117-131 | a record takes its text from the first of its four aliases and its flag from the first of four others, with empty text and false as defaults |
| Api.NormaliseValueOfPair | web-frontend/src/api.ts:119-125 | a pair takes its text from element 0 and its flag from element 1; an empty array gives empty text and false |
| Api.NormaliseDefinitionSpec | web-frontend/src/api.ts:133-156 | the values come from `Values.Values`, each normalised, and are empty when that is not an array; the flag is false when none of its four aliases is present; category and type are trimmed |
| Api.NormaliseDefinitionFlatValues | web-frontend/src/api.ts:135-140 | the values of a definition whose `Values` member is a bare array are dropped |
| Api.CleanListSpec | web-frontend/src/api.ts:166-172 | a cleaned list is trimmed, non-empty, free of repeats and strictly increasing in the locale order, and holds exactly the non-empty trimmed texts of the input |
| Api.UniqueSorted | web-frontend/src/api.ts:166-172 | removing repeats and sorting leaves the same texts, each once, strictly increasing |
| Api.TrimAllMembers | web-frontend/src/api.ts:169 | a text is among the trimmed texts exactly when some input trims to it |
| Api.TypesOfSpec | web-frontend/src/api.ts:158-172 | the types of a catalogue item are trimmed, non-empty, free of repeats, strictly increasing in the locale order, and exactly the non-empty trimmed type texts |
| Api.CategoryTypesOfSpec | web-frontend/src/api.ts:296-306 | a non-array answer gives nothing; every item kept has a non-empty trimmed category, and an item is kept exactly when its category is non-empty |
| Api.EntriesOfSpec | web-frontend/src/api.ts:226-230 | a wrongly shaped answer gives no entries; otherwise one entry per item, in order, each normalised, with trimmed category and type |
| Api.DefinitionsOfSpec | web-frontend/src/api.ts:276-280 | a wrongly shaped answer gives no definitions; otherwise one definition per item, in order, each normalised, with trimmed category and type |
| Api.ValuesOfSpec | web-frontend/src/api.ts:290-293 | only an object answer carries values: its `Values` list, else its `values` list, gives one normalised value per item in order; anything else gives none |
| NotableValues.NoticeableKeysSpec | web-frontend/src/utils/notableValues.ts:26-31 | a definition's set holds exactly the normalised texts of its noticeable values |
| NotableValues.NoticeableSet | web-frontend/src/utils/notableValues.ts:26-31 | the loop over a definition's values builds that set |
| NotableValues.AddCategory | web-frontend/src/utils/notableValues.ts:23-35 | the loop over one category's definitions applies them to the map in order |
| NotableValues.BuildNotableValuesMap | web-frontend/src/utils/notableValues.ts:17-39 | the nested loops visit every definition of every category, in order |
| NotableValues.ExtendAppend | web-frontend/src/utils/notableValues.ts:22-36 | visiting two lists in turn is visiting their concatenation |
| NotableValues.NotableMapOfSnoc | web-frontend/src/utils/notableValues.ts:32-34 | one more definition sets its key to its set when that set is non-empty and otherwise leaves the map alone |
| NotableValues.NotableMapKeys | web-frontend/src/utils/notableValues.ts:17-39 | a key is in the map exactly when some definition with that key has a noticeable value |
| NotableValues.NotableMapLastWins | web-frontend/src/utils/notableValues.ts:32-34 | a key holds the set of the last definition that sets it: a later definition replaces an earlier one |
| NotableValues.VisitKey | web-frontend/src/utils/notableValues.ts:23-25 | a definition is stored under the entry key of its category and type |
| NotableValues.EntryKeyNormalised | web-frontend/src/utils/notableValues.ts:5-10 | `getEntryKey` ignores letter case and surrounding blanks |
| NotableValues.SplitValuesByNotable | web-frontend/src/utils/notableValues.ts:56-73 | the loop yields the notable values and the others, each in entry order |
| NotableValues.SplitPartition | web-frontend/src/utils/notableValues.ts:56-73 | the split is a partition: the lengths add up and no value is lost or duplicated |
| NotableValues.SplitNotablePart | web-frontend/src/utils/notableValues.ts:41-70 | the notable part holds exactly the notable values, and is non-empty exactly when `hasNotableValue` holds |
| NotableValues.SplitOtherPart | web-frontend/src/utils/notableValues.ts:64-70 | the other part holds exactly the values that are not notable |
| NotableValues.NotableAfterBuild | web-frontend/src/utils/notableValues.ts:17-51 | under the built map a value is notable exactly when the last definition of its entry's key that sets it lists the value as noticeable |
| NotableValues.NothingNotableWithoutDefinition | web-frontend/src/utils/notableValues.ts:47-54 | without any definition for its key no value of an entry is notable |
| Notable.AddDefinition | web-frontend/src/utils/notable.ts:15-28 | one definition adds its noticeable values to its type's set and deletes a set left empty |
| Notable.AddNoticeable | web-frontend/src/utils/notable.ts:20-24 | the inner loop adds each noticeable value, normalised, to the type's set and nothing else |
| Notable.BuildTypeNotableMap | web-frontend/src/utils/notable.ts:9-32 | the loop over the definitions applies them in order |
| Notable.TypeNotableMapSpec | web-frontend/src/utils/notable.ts:9-32 | a type is in the map exactly when some definition of it has a noticeable value, and its set is the union over all its definitions |
| Notable.UnionForSpec | web-frontend/src/utils/notable.ts:20-24 | the union holds a value exactly when some definition of the type lists it as noticeable |
| Notable.CategorySpellings | web-frontend/src/utils/notable.ts:37-43 | the loop fills the category map, keeping the first spelling of each key |
| Notable.FirstSpellingsKeys | web-frontend/src/utils/notable.ts:37-43 | a category key is present exactly when some entry has it |
| Notable.FirstSpellingWins | web-frontend/src/utils/notable.ts:40-42 | the spelling kept for a key is that of the first entry with the key |
| Notable.AssembleLookup | web-frontend/src/utils/notable.ts:45-59 | the lookup has exactly the category keys of the entries |
| Notable.LookupForEntry | web-frontend/src/utils/notable.ts:47-77 | an entry's type has a set exactly when its definitions arrived and some definition of the type has a noticeable value, the set being their union; after a failed request nothing of the entry is notable |
| Notable.SplitEntryValues | web-frontend/src/utils/notable.ts:67-91 | the loop yields the notable and the regular values in order, all values regular when the type has no set |
| Notable.SplitWithoutSet | web-frontend/src/utils/notable.ts:75-77 | with no set for the category and type nothing is notable and every value is regular |
| Notable.SplitPartition | web-frontend/src/utils/notable.ts:82-88 | the split is an order-preserving partition of the values |
| Notable.HasNotableValueSpec | web-frontend/src/utils/notable.ts:93-99 | `hasNotableValue` holds exactly when the type has a set and some value's normalised form is in it |
| Notable.SplitIgnoresCase | web-frontend/src/utils/notable.ts:83 | a value differing only in case or surrounding blanks splits the same way |
| RecordingFeed.SanitiseDays | web-frontend/src/components/WellBeingRecordingFeed.tsx:109-121 | the number of days is always 1 to 120; a non-finite request gives 7 and a request already in range is kept as its floor |
| RecordingFeed.SanitiseDaysProperties | web-frontend/src/components/WellBeingRecordingFeed.tsx:109-121 | sanitising is idempotent and monotone in the request |
| RecordingFeed.DaysModeSpec | web-frontend/src/components/WellBeingRecordingFeed.tsx:138-150 | in days mode the start is n - 1 days before today for the sanitised n, with a message exactly when the request exceeded 120 |
| RecordingFeed.DateModeSpec | web-frontend/src/components/WellBeingRecordingFeed.tsx:152-177 | in date mode an empty or unreadable date gives no start and a message, a future date gives today, and any other date gives its own key |
| RecordingFeed.NoTodayNoStart | web-frontend/src/components/WellBeingRecordingFeed.tsx:129-136 | without a readable today there is no start and the fixed message |
| RecordingFeed.KeysBetween | web-frontend/src/components/WellBeingRecordingFeed.tsx:41-55 | the loop stepping a cursor back one day at a time yields the keys from the end day down to the start day |
| RecordingFeed.CreateDescendingDateKeys | web-frontend/src/components/WellBeingRecordingFeed.tsx:41-55 | the method yields the descending range of keys, empty for unreadable keys or a start after the end |
| RecordingFeed.KeysDownFromSpec | web-frontend/src/components/WellBeingRecordingFeed.tsx:41-55 | each key of the range reads back as its own day and no key repeats |
| RecordingFeed.DescendingDateKeysSpec | web-frontend/src/components/WellBeingRecordingFeed.tsx:41-55 | the range holds end - start + 1 keys in descending day order, none repeated, and is empty when the start is after the end |
| RecordingFeed.FirstOfEachKey | web-frontend/src/components/WellBeingRecordingFeed.tsx:449-474 | the Map keeps the first candidate of each composite key, in visiting order |
| RecordingFeed.CategoryTypeEntries | web-frontend/src/components/WellBeingRecordingFeed.tsx:437-483 | the method builds the candidate pairs from the catalogue and then the entries, keeps the first of each key and sorts them |
| RecordingFeed.EntryLeqTotalPreorder | web-frontend/src/components/WellBeingRecordingFeed.tsx:477-482 | the comparator, by category ignoring case and then by type, is a total preorder |
| RecordingFeed.CategoryTypeEntriesSpec | web-frontend/src/components/WellBeingRecordingFeed.tsx:437-483 | the pairs are sorted, their keys are pairwise distinct and never have an empty type key, each is the first candidate of its key, and every candidate key is represented |
| RecordingFeed.CatalogueSpellingWins | web-frontend/src/components/WellBeingRecordingFeed.tsx:440-458 | a pair the catalogue lists keeps the catalogue's spelling even when an entry spells it differently |
| RecordingFeed.RecordedKeys | web-frontend/src/components/WellBeingRecordingFeed.tsx:485-497 | the loop adds the id of each entry with a date, a category and a type to the set |
| RecordingFeed.RecordedKeysSpec | web-frontend/src/components/WellBeingRecordingFeed.tsx:485-497 | an id is recorded exactly when some complete entry has it |
| RecordingFeed.AppendMissingForDay | web-frontend/src/components/WellBeingRecordingFeed.tsx:513-522 | the inner loop appends the day's unrecorded pairs in pair order |
| RecordingFeed.MissingItems | web-frontend/src/components/WellBeingRecordingFeed.tsx:506-526 | the nested loops list every day and, within it, every pair not yet recorded |
| RecordingFeed.ProductMembers | web-frontend/src/components/WellBeingRecordingFeed.tsx:512-514 | a cell belongs to the day-by-pair product exactly when it pairs a listed day with a listed pair |
| RecordingFeed.MissingSpec | web-frontend/src/components/WellBeingRecordingFeed.tsx:506-526 | the missing items are exactly the product cells whose id is not recorded, in day-major order, and all of the product when nothing is recorded |
| RecordingFeed.MissingMember | web-frontend/src/components/WellBeingRecordingFeed.tsx:506-526 | an item is missing exactly when it is the cell of a listed day and pair and its id is not recorded |
| RecordingFeed.RecordedEntryNotMissing | web-frontend/src/components/WellBeingRecordingFeed.tsx:485-515 | a recorded entry removes its day and pair from the missing items |
| RecordingFeed.PagingSpec | web-frontend/src/components/WellBeingRecordingFeed.tsx:534-543 | the visible items are a prefix of the missing ones, more can be loaded exactly when some are hidden, and showing more extends the prefix by up to a page |
| RecordingFeed.QuickToggleSpec | web-frontend/src/components/WellBeingRecordingFeed.tsx:243-252 | toggling flips the value's membership; with several values allowed nothing else changes, otherwise at most one value stays selected |
| RecordingFeed.QuickToggleTwice | web-frontend/src/components/WellBeingRecordingFeed.tsx:243-252 | with several values allowed toggling a new value twice restores the selection |
| RecordingFeed.QuickSubmitSpec | web-frontend/src/components/WellBeingRecordingFeed.tsx:254-271 | a save happens exactly with a loaded definition and a non-empty selection, and records the item's day, category, type and the selection |
| DataEntry.ToggleValueSpec | web-frontend/src/components/WellBeingDataEntry.tsx:207-217 | with several values allowed toggling flips the value's membership, keeps every other value, appends a new value last and keeps the selection repeat-free; otherwise the value is selected alone |
| DataEntry.ToggleValueTwice | web-frontend/src/components/WellBeingDataEntry.tsx:207-217 | with several values allowed toggling a new value twice restores the selection |
| DataEntry.ReconcileSpec | web-frontend/src/components/WellBeingDataEntry.tsx:176-188 | reconciliation keeps only already selected values in order; with values available it keeps only allowed ones (all of them when several are allowed), without them the selection as far as the flag permits; a single-value definition ends with at most one |
| DataEntry.ReconcileIdempotent | web-frontend/src/components/WellBeingDataEntry.tsx:176-188 | reconciling twice is reconciling once |
| DataEntry.TypeOptionsSpec | web-frontend/src/components/WellBeingDataEntry.tsx:65-78 | the options are trimmed, non-empty, repeat-free and strictly increasing, and an option is offered exactly when some catalogue or definition type of the category trims to it |
| DataEntry.BuildCatalogue | web-frontend/src/components/WellBeingDataEntry.tsx:89-107 | the loop over the response fills the catalogue map in order |
| DataEntry.CatalogueKeys | web-frontend/src/components/WellBeingDataEntry.tsx:91-102 | a key is present exactly when some item with a non-blank category folds to it |
| DataEntry.CatalogueLastWins | web-frontend/src/components/WellBeingDataEntry.tsx:102-105 | a key holds the item of the last entry filed under it |
| DataEntry.CatalogueValueFrom | web-frontend/src/components/WellBeingDataEntry.tsx:102-105 | whatever a key holds comes from some entry filed under it |
| DataEntry.CatalogueItemsClean | web-frontend/src/components/WellBeingDataEntry.tsx:92-105 | each item's label is trimmed, non-blank and folds to its key; its types are trimmed, non-empty, repeat-free and strictly increasing |
| DataEntry.HandleSubmitSpec | web-frontend/src/components/WellBeingDataEntry.tsx:219-253 | an entry is sent exactly when the trimmed category and type are non-blank and a value is selected, the guards tried in that order; it carries the trimmed names and the selection; success clears the selection, failure keeps it and reports an error |
| DataEntry.SelectCategorySpec | web-frontend/src/components/WellBeingDataEntry.tsx:255-262 | selecting a category makes it current and clears type and selection; selecting the current one changes nothing |
| DataExplorer.FormatLabelSpec | web-frontend/src/components/WellBeingDataExplorer.tsx:19-20 | formatting keeps the length, changes at most the first character and only from a lower-case letter to its capital, and is idempotent |
| DataExplorer.TextLeqTotalPreorder | web-frontend/src/components/WellBeingDataExplorer.tsx:135-148 | comparing options by their shown text is a total preorder |
| DataExplorer.BuildOptions | web-frontend/src/components/WellBeingDataExplorer.tsx:126-148 | the loop keeps the first chip of each key in visiting order and the result is sorted by text |
| DataExplorer.OptionsSpec | web-frontend/src/components/WellBeingDataExplorer.tsx:125-149 | options are sorted by text and have distinct keys; each is the first chip of its key and every chip's key has an option |
| DataExplorer.CategoryOptionsSpec | web-frontend/src/components/WellBeingDataExplorer.tsx:125-136 | one option per folded category of the entries, shown as the first entry of that key spells it, in text order |
| DataExplorer.TypeOptionsSpec | web-frontend/src/components/WellBeingDataExplorer.tsx:138-149 | one option per folded category and type pair, shown as the type and formatted category of the first entry of that pair, in text order |
| DataExplorer.ToggleSpec | web-frontend/src/components/WellBeingDataExplorer.tsx:187-197 | toggling flips the key's membership and no other's; toggling a new key twice restores the selection |
| DataExplorer.PruneSpec | web-frontend/src/components/WellBeingDataExplorer.tsx:151-156 | pruning keeps, in order, exactly the selected keys that still have an option, and is idempotent |
| DataExplorer.LaterFirstTotalPreorder | web-frontend/src/components/WellBeingDataExplorer.tsx:184 | ordering by date, latest first, is a total preorder |
| DataExplorer.FilteredEntriesSpec | web-frontend/src/components/WellBeingDataExplorer.tsx:158-185 | the list holds each loaded entry passing the category, type and query tests, as often as it was loaded, latest date first |
| DataExplorer.NothingSelectedListsAll | web-frontend/src/components/WellBeingDataExplorer.tsx:165-171 | with nothing selected and a blank query every entry is listed |
| DataExplorer.QueryIgnoresCase | web-frontend/src/components/WellBeingDataExplorer.tsx:159 | only the trimmed, lower-cased query matters |
| DataExplorer.QueryFindsCategory | web-frontend/src/components/WellBeingDataExplorer.tsx:173-182 | a query that begins an entry's lower-cased category finds the entry |
| CalendarView.BuildGrid | web-frontend/src/components/WellBeingCalendar.tsx:53-64 | the two loops build the month's grid |
| CalendarView.GridSpec | web-frontend/src/components/WellBeingCalendar.tsx:53-64 | the grid is the first day's weekday worth of blanks, fewer than seven, then the days 1 to the month's length (28 to 31) in order |
| CalendarView.DayTextIsDateKey | web-frontend/src/components/WellBeingCalendar.tsx:62 | from year 1000 to 9999 each day cell is the date key of its day and reads back as that day |
| CalendarView.NavigationSpec | web-frontend/src/components/WellBeingCalendar.tsx:90-105 | each step keeps the month in 0 to 11, moves by exactly one month, and the two steps undo each other |
| CalendarView.NavigationRoundTrip | web-frontend/src/components/WellBeingCalendar.tsx:90-105 | n steps forward then n back return to the starting month |
| CalendarView.ColorSpec | web-frontend/src/components/WellBeingCalendar.tsx:70-87 | a tagged day has its tag's colour, distinct per tag, and white text; an untagged day keeps the default colours |
| Calendar.FromDayNumberInverse | web-frontend/src/components/WellBeingRecordingFeed.tsx:22-39 | day numbers and valid dates correspond one to one |
| Calendar.KeyRangeRoundTrip | web-frontend/src/components/WellBeingRecordingFeed.tsx:22-39 | the key of a day in the key range reads back as that day |
| Calendar.ParseToDateKey | web-frontend/src/components/WellBeingRecordingFeed.tsx:22-39 | parsing the key of a day gives that day back, for the years the constructor reads literally |
| Calendar.ToDateKeyOfParse | web-frontend/src/components/WellBeingRecordingFeed.tsx:22-39 | writing the day parsed from a key of a real date from year 100 on gives the key back |
| Calendar.ToDateKeyInjective | web-frontend/src/components/WellBeingRecordingFeed.tsx:22-26 | distinct days have distinct keys up to year 9999 |
| Calendar.ParseIsoDateOfEncode | WebApi/DataBase/InMemoryGenericRepository.cs:148-150 | reading a date text back gives the date it was written from |
| Text.TrimFold | web-frontend/src/utils/notable.ts:5-7 | trimming and case folding commute |
| Text.KeyIdempotent | web-frontend/src/utils/notable.ts:5-7 | normalising a key twice is normalising it once |
| Text.TrimEnds | web-frontend/src/utils/notable.ts:5-7 | a trimmed string has no whitespace at either end |
| AppCalendar.CategoryColors | web-frontend/src/App.tsx:54-61 | the loop colours the sorted label keys in turn from the palette |
| AppCalendar.ColorsOfKeys | web-frontend/src/App.tsx:57-59 | exactly the listed keys are coloured |
| AppCalendar.ColorsOfAt | web-frontend/src/App.tsx:57-59 | a key not repeated later keeps the colour of its position |
| AppCalendar.PaletteDistinct | web-frontend/src/App.tsx:31 | the eight palette colours are pairwise different |
| AppCalendar.CategoryColorsSpec | web-frontend/src/App.tsx:54-61 | every label and nothing else is coloured; the label at sorted position i gets colour i modulo 8, so two labels share a colour exactly when their positions are a multiple of 8 apart |
| AppCalendar.ColorsIgnoreKeyOrder | web-frontend/src/App.tsx:55 | the colours do not depend on the order the label keys are enumerated in |
| AppCalendar.CategoriesToFetchSpec | web-frontend/src/App.tsx:98-104 | definitions are fetched once per distinct non-blank category spelling of the month and for no other text |
| AppCalendar.DefinitionsResults | web-frontend/src/App.tsx:106-116 | each category is paired with its definitions, or none when its request failed |
| AppCalendar.Aggregate | web-frontend/src/App.tsx:121-135 | the loop over the month's entries fills the labels and the day records |
| AppCalendar.RecordDay | web-frontend/src/App.tsx:126-134 | one entry gives its day a record and adds its category key to it when the entry has a notable value |
| AppCalendar.DateMapSpec | web-frontend/src/App.tsx:125-135 | a day has a record exactly when some entry falls on it, listing exactly the category keys with a notable value that day, each once |
| AppCalendar.LabelsKeys | web-frontend/src/App.tsx:127-128 | a category key is labelled exactly when some entry has it |
| AppCalendar.LabelsLastWins | web-frontend/src/App.tsx:128 | a key's label is the spelling of the last entry with that key |
| AppCalendar.CalendarMap | web-frontend/src/App.tsx:137-145 | the loop over the day records keeps the days having both required categories |
| AppCalendar.CalendarDaySpec | web-frontend/src/App.tsx:121-145 | a day is shown exactly when an observation and a symptom entry each had a notable value that day, listing exactly that day's notable categories |
| AppCalendar.LoadedLabelsColoured | web-frontend/src/App.tsx:46-61 | after a month loads every category key seen has a label spelled as its last entry, earlier labels stay, and every label including the two defaults has a colour |

## Left out

- Asynchrony, `Task`, the concurrent dictionary and the lock of the in-memory store: the model is sequential, one operation at a time.
- Logging in the C# code and `console.warn` in the front end: they have no effect on results.
- Opening Postgres connections, executing commands and reading result rows: database I/O; only the SQL text and the parameter bindings are modelled.
- The HTTP transport of the front end (`fetch`, `getJson`, `postJson`, the exported request wrappers): each reply is a parameter, a failed request an absent reply; the request bodies the front end posts are not modelled.
- React rendering, effects, loading and error flags, the definitions cache and the selected-date refresh: only the state transitions and derived values the views compute are modelled.
- The type-clearing effect and the single-option auto-selection effect of the data-entry form (`WellBeingDataEntry.tsx:190-205`): they only chain the modelled selection rules.
- The month bounds the shell asks the service for (`App.tsx:84-87`): they go through `toISOString`, which depends on the time zone.
- Time zones: a `Date` is a day number, so `toDateKey` is the key of that day and noon-normalisation has no counterpart.
- Globally unique identifiers: a fresh id is the next value of a counter that only grows. Nothing proves it distinct from an id value a caller stores itself; the repository's callers store none.
- The default branch of `MapRowToResult`: it is modelled as written, but no lemma is stated about it, since the store only uses the three known tables.
- Floating point: numbers are integers everywhere except the day count of the recording feed, which is a real or a non-finite value.
- JavaScript strings are sequences of UTF-16 code units; here they are sequences of characters. Case folding and trimming cover ASCII letters and ASCII whitespace plus the no-break space, not the full Unicode tables.
- Locale-aware comparison (`localeCompare`) is modelled as a total preorder: case-folded code-unit order, ties broken by code-unit order.
- Store.DayOf: text reads as a date only in the ISO form `YYYY-MM-DD`; `DateOnly.Parse` also accepts the culture's other formats (such as "1/2/2024" or "Jan 2, 2024"), which here throw a format fault when compared, because culture-dependent parsing has no fixed definition to model.
- Store.NormalizeValue: likewise only ISO `YYYY-MM-DD` text in the entry date column is stored as a day; text in the culture's other date formats, which `DateOnly.TryParse` reads, is kept as text.
- Calendar.ParseDateKey: accepts exactly a `DDDD-DD-DD` text; the source's unanchored pattern also accepts longer texts that contain such a key, which the model reads as no date.
- `String(value)` of a `Date` object in the normalisers: a date value is rendered as its date key rather than the engine's long date text.
- Properties inherited from `Object.prototype` and `Array.prototype`, which `in` and record lookups also see: records here have only their own keys.
- DataExplorer.FilteredEntriesSpec: the source comparator never returns 0, so the order among entries with the same date is engine-defined; the model uses a stable sort and states only the order by date and the multiset of entries.
- CalendarView.DayTextIsDateKey: stated for years 1000 to 9999 only, where the year is written with exactly four digits.
- Composite keys (`category__type`, `date|category|type`, `category|type`) are built literally, so names containing the separators can collide; no lemma rules this out.
- The legacy command handler, the dashboard averages, the admin, test and form pages and the service wiring: outside the modelled core.
