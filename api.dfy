/**
 * The browser's normalisers for the loosely typed JSON the server sends:
 * every field is looked up under several spellings, missing parts get
 * defaults, and text is trimmed.  A JSON value is modelled as a datatype;
 * objects are maps from property name to value.
 */
module Api {
  import opened Text
  import opened Ordering
  import Calendar
  import Wrappers

  /** A JavaScript value as the normalisers meet it (numbers are integers here). */
  datatype Json =
    | JUndefined
    | JNull
    | JBool(b: bool)
    | JNumber(n: int)
    | JString(s: string)
    | JDate(day: nat)
    | JArray(items: seq<Json>)
    | JObject(fields: map<string, Json>)

  /** `WellBeingEntry`. */
  datatype Entry = Entry(date: string, category: string, entryType: string, values: seq<string>)

  /** `WellBeingDefinitionValue`. */
  datatype DefinitionValue = DefinitionValue(value: string, noticeable: bool)

  /** `WellBeingDefinition`. */
  datatype Definition = Definition(category: string, entryType: string, allowMultiple: bool, values: seq<DefinitionValue>)

  /** `WellBeingCategoryTypes`. */
  datatype CategoryTypes = CategoryTypes(category: string, types: seq<string>)

  // ---- JavaScript conversions ----

  /**
   * `String(value)`.  An array is joined with commas, a null or undefined
   * element giving the empty string; a date gives its day key.
   */
  function StringOf(v: Json): string
    decreases v
  {
    match v
    case JUndefined => "undefined"
    case JNull => "null"
    case JBool(b) => if b then "true" else "false"
    case JNumber(n) => IntToString(n)
    case JString(s) => s
    case JDate(d) => Calendar.ToDateKey(d)
    case JArray(items) =>
      Join(",", seq(|items|, i requires 0 <= i < |items| =>
        if items[i].JUndefined? || items[i].JNull? then "" else StringOf(items[i])))
    case JObject(_) => "[object Object]"
  }

  /** `Boolean(value)`. */
  predicate Truthy(v: Json) {
    match v
    case JUndefined => false
    case JNull => false
    case JBool(b) => b
    case JNumber(n) => n != 0
    case JString(s) => |s| > 0
    case _ => true
  }

  /** `a ?? b`. */
  function Coalesce(a: Json, b: Json): Json {
    if a.JUndefined? || a.JNull? then b else a
  }

  /** `arr[i]`: undefined past the end. */
  function At(items: seq<Json>, i: nat): Json {
    if i < |items| then items[i] else JUndefined
  }

  /** `asRecord`: objects keep their properties; anything else is an empty record. */
  function AsRecord(v: Json): map<string, Json> {
    if v.JObject? then v.fields else map[]
  }

  /**
   * normaliseDate: a string is cut to its first ten characters, a date
   * becomes its ISO day, anything else is converted to text with null and
   * undefined giving the empty string.
   */
  function NormaliseDate(v: Json): (r: string)
    ensures v.JString? ==> r == if |v.s| >= 10 then v.s[..10] else v.s
    ensures v.JUndefined? || v.JNull? ==> r == ""
    ensures v.JString? || v.JDate? ==> |r| <= 10
  {
    match v
    case JString(s) => if |s| >= 10 then s[..10] else s
    case JDate(d) => Calendar.ToDateKey(d)
    case _ => StringOf(Coalesce(v, JString("")))
  }

  /** toBoolean: a boolean as it is, a string by comparison with "true" ignoring case, anything else by truthiness. */
  predicate ToBoolean(v: Json) {
    match v
    case JBool(b) => b
    case JString(s) => Fold(s) == "true"
    case _ => Truthy(v)
  }

  // ---- pickFirst ----

  /** The value of the first of `keys` the record has, or undefined when it has none. */
  function PickFirst(source: map<string, Json>, keys: seq<string>): Json
    decreases |keys|
  {
    if |keys| == 0 then JUndefined
    else if keys[0] in source then source[keys[0]]
    else PickFirst(source, keys[1..])
  }

  /** pickFirst, as the source writes it: a loop over the keys that returns at the first one present. */
  method PickFirstOf(source: map<string, Json>, keys: seq<string>) returns (r: Json)
    ensures r == PickFirst(source, keys)
  {
    for i := 0 to |keys|
      invariant PickFirst(source, keys) == PickFirst(source, keys[i..])
    {
      assert keys[i..][1..] == keys[i + 1..];
      if keys[i] in source {
        return source[keys[i]];
      }
    }
    return JUndefined;
  }

  /**
   * pickFirst returns the value of the earliest key present, so the first
   * spelling wins over later ones; when no key is present it returns
   * undefined.
   */
  lemma {:induction false} PickFirstSpec(source: map<string, Json>, keys: seq<string>)
    ensures (forall i :: 0 <= i < |keys| ==> keys[i] !in source) ==> PickFirst(source, keys) == JUndefined
    ensures forall i :: 0 <= i < |keys| && keys[i] in source && (forall j :: 0 <= j < i ==> keys[j] !in source) ==>
      PickFirst(source, keys) == source[keys[i]]
    decreases |keys|
  {
    if |keys| > 0 {
      PickFirstSpec(source, keys[1..]);
      forall i | 0 < i < |keys| && keys[i] in source && (forall j :: 0 <= j < i ==> keys[j] !in source)
        ensures PickFirst(source, keys) == source[keys[i]]
      {
        assert keys[1..][i - 1] == keys[i];
        assert forall j :: 0 <= j < i - 1 ==> keys[1..][j] == keys[j + 1];
      }
    }
  }

  /** A PascalCase property hides its camelCase twin. */
  lemma PascalCaseWins(source: map<string, Json>, pascal: string, camel: string)
    requires pascal in source
    ensures PickFirst(source, [pascal, camel]) == source[pascal]
  {
  }

  // ---- normalisers ----

  /** `String(pickFirst(record, ...) ?? '').trim()`. */
  function TextField(record: map<string, Json>, keys: seq<string>): string {
    Trim(StringOf(Coalesce(PickFirst(record, keys), JString(""))))
  }

  /** The values of an entry: an array as it is, null or undefined as none, anything else as one value. */
  function AsList(v: Json): seq<Json> {
    if v.JArray? then v.items
    else if v.JUndefined? || v.JNull? then []
    else [v]
  }

  function Strings(items: seq<Json>): (r: seq<string>)
    ensures |r| == |items|
  {
    seq(|items|, i requires 0 <= i < |items| => StringOf(items[i]))
  }

  /** normaliseEntry. */
  function NormaliseEntry(raw: Json): Entry {
    var record := AsRecord(raw);
    Entry(NormaliseDate(PickFirst(record, ["Date", "date"])),
          TextField(record, ["Category", "category"]),
          TextField(record, ["Type", "type"]),
          Strings(AsList(PickFirst(record, ["Values", "values"]))))
  }

  /** normaliseValue. */
  function NormaliseValue(raw: Json): DefinitionValue {
    var record := AsRecord(raw);
    var arrayValue := if raw.JArray? then raw.items else [];
    var valueCandidate := Coalesce(Coalesce(PickFirst(record, ["Value", "value", "Item1", "item1"]), At(arrayValue, 0)), JString(""));
    var noticeableCandidate := Coalesce(Coalesce(PickFirst(record, ["Noticeable", "noticeable", "Item2", "item2"]), At(arrayValue, 1)), JBool(false));
    DefinitionValue(StringOf(Coalesce(valueCandidate, JString(""))), ToBoolean(noticeableCandidate))
  }

  function NormaliseValues(items: seq<Json>): (r: seq<DefinitionValue>)
    ensures |r| == |items|
  {
    seq(|items|, i requires 0 <= i < |items| => NormaliseValue(items[i]))
  }

  const AllowMultipleKeys: seq<string> := ["AllowMultiple", "allowMultiple", "AllowMultipleSelection", "allowMultipleSelection"]

  /** normaliseDefinition: the values sit one level down, under `Values.Values`. */
  function NormaliseDefinition(raw: Json): Definition {
    var record := AsRecord(raw);
    var valuesContainer := AsRecord(PickFirst(record, ["Values", "values"]));
    var rawValues := PickFirst(valuesContainer, ["Values", "values"]);
    Definition(TextField(record, ["Category", "category"]),
               TextField(record, ["Type", "type"]),
               ToBoolean(Coalesce(PickFirst(record, AllowMultipleKeys), JBool(false))),
               if rawValues.JArray? then NormaliseValues(rawValues.items) else [])
  }

  /** Each text trimmed (`map((value) => value.trim())`). */
  function TrimAll(ss: seq<string>): (r: seq<string>)
    ensures |r| == |ss|
  {
    seq(|ss|, i requires 0 <= i < |ss| => Trim(ss[i]))
  }

  function NonEmpty(s: string): bool { |s| > 0 }

  function Identity(s: string): string { s }

  /** `Array.from(new Set(texts.map(trim).filter(non-empty))).sort(localeCompare)`. */
  function CleanList(ss: seq<string>): seq<string> {
    SortBy(DedupBy(Filter(TrimAll(ss), NonEmpty), Identity), LocaleLeq)
  }

  /** The texts of listed types; a null or missing one reads as empty. */
  function RawTypes(items: seq<Json>): (r: seq<string>)
    ensures |r| == |items|
  {
    seq(|items|, i requires 0 <= i < |items| => StringOf(Coalesce(items[i], JString(""))))
  }

  function TrimmedTypes(items: seq<Json>): (r: seq<string>)
    ensures |r| == |items|
  {
    TrimAll(RawTypes(items))
  }

  /** The listed types of a catalogue item: trimmed, non-empty, without repeats (`new Set`), sorted by `localeCompare`. */
  function TypesOf(items: seq<Json>): seq<string> {
    CleanList(RawTypes(items))
  }

  /** normaliseCategoryTypes. */
  function NormaliseCategoryTypes(raw: Json): CategoryTypes {
    var record := AsRecord(raw);
    CategoryTypes(TextField(record, ["Category", "category"]),
                  TypesOf(AsList(PickFirst(record, ["Types", "types", "Type", "type"]))))
  }

  /** getWellBeingCategoryTypes after the request: a non-array answer gives nothing; items without a category are dropped. */
  function CategoryTypesOf(response: Json): seq<CategoryTypes> {
    if response.JArray? then Filter(NormalisedCategories(response.items), HasCategory) else []
  }

  function NormalisedCategories(items: seq<Json>): (r: seq<CategoryTypes>)
    ensures |r| == |items| && forall i :: 0 <= i < |items| ==> r[i] == NormaliseCategoryTypes(items[i])
  {
    seq(|items|, i requires 0 <= i < |items| => NormaliseCategoryTypes(items[i]))
  }

  predicate HasCategory(c: CategoryTypes) {
    |c.category| > 0
  }

  /** getAllWellBeingData after the request: a non-array answer gives no entries, otherwise each item normalised. */
  function EntriesOf(response: Json): seq<Entry> {
    if response.JArray? then seq(|response.items|, i requires 0 <= i < |response.items| => NormaliseEntry(response.items[i]))
    else []
  }

  /** getWellBeingDefinitions after the request. */
  function DefinitionsOf(response: Json): seq<Definition> {
    if response.JArray? then seq(|response.items|, i requires 0 <= i < |response.items| => NormaliseDefinition(response.items[i]))
    else []
  }

  /** getWellBeingValues after the request: the list sits under `Values` of the answer. */
  function ValuesOf(response: Json): seq<DefinitionValue> {
    var rawValues := PickFirst(AsRecord(response), ["Values", "values"]);
    if rawValues.JArray? then NormaliseValues(rawValues.items) else []
  }

  // ---- properties ----

  /** Normalising a date twice changes nothing. */
  lemma NormaliseDateIdempotent(v: Json)
    requires v.JString? || v.JDate? || v.JUndefined? || v.JNull?
    ensures NormaliseDate(JString(NormaliseDate(v))) == NormaliseDate(v)
  {
  }

  /** Text produced by the model of `Date.toISOString` is the day key, and reads back as the same day. */
  lemma NormaliseDateOfDate(d: nat)
    requires 100 <= Calendar.FromDayNumber(d).year <= 9999
    ensures NormaliseDate(JDate(d)) == Calendar.ToDateKey(d)
    ensures Calendar.ParseDateKey(NormaliseDate(JDate(d))) == Wrappers.Some(d)
  {
    Calendar.ParseToDateKey(d);
  }

  /** toBoolean keeps booleans, reads "true" in any letter case, and is false for every other string. */
  lemma ToBooleanSpec(v: Json)
    ensures v.JBool? ==> ToBoolean(v) == v.b
    ensures ToBoolean(JString("true")) && ToBoolean(JString("TRUE")) && ToBoolean(JString("True"))
    ensures v.JString? ==> (ToBoolean(v) <==> Fold(v.s) == "true")
    ensures v.JString? ==> ToBoolean(v) == ToBoolean(JString(Fold(v.s)))
    ensures v.JUndefined? || v.JNull? ==> !ToBoolean(v)
    ensures ToBoolean(JString(StringOf(JBool(v.JBool? && v.b)))) == (v.JBool? && v.b)
  {
    FoldIdempotent(if v.JString? then v.s else "");
    assert Fold("TRUE") == "true";
    assert Fold("True") == "true";
    assert Fold("false") == "false";
  }

  /** Whitespace-free text with no surrounding blanks is what the trimmed fields hold. */
  lemma TextFieldTrimmed(record: map<string, Json>, keys: seq<string>)
    ensures Trim(TextField(record, keys)) == TextField(record, keys)
    ensures (forall i :: 0 <= i < |keys| ==> keys[i] !in record) ==> TextField(record, keys) == ""
  {
    TrimIdempotent(StringOf(Coalesce(PickFirst(record, keys), JString(""))));
    PickFirstSpec(record, keys);
    assert Trim("") == "";
  }

  /**
   * normaliseEntry: the values of an array are converted one by one, in
   * order; null or undefined give no values, any other value a single one;
   * category and type are trimmed.
   */
  lemma NormaliseEntrySpec(fields: map<string, Json>)
    ensures var e := NormaliseEntry(JObject(fields));
      var raw := PickFirst(fields, ["Values", "values"]);
      && (raw.JArray? ==> |e.values| == |raw.items| && forall i :: 0 <= i < |raw.items| ==> e.values[i] == StringOf(raw.items[i]))
      && (raw.JUndefined? || raw.JNull? ==> e.values == [])
      && (!raw.JArray? && !raw.JUndefined? && !raw.JNull? ==> e.values == [StringOf(raw)])
      && Trim(e.category) == e.category && Trim(e.entryType) == e.entryType
      && ("Values" in fields ==> raw == fields["Values"])
      && ("Values" !in fields && "values" in fields ==> raw == fields["values"])
  {
    TextFieldTrimmed(fields, ["Category", "category"]);
    TextFieldTrimmed(fields, ["Type", "type"]);
  }

  /** A value entry read from a record takes its text from the first of its four aliases, with false as the default flag. */
  lemma NormaliseValueOfRecord(fields: map<string, Json>)
    ensures var v := NormaliseValue(JObject(fields));
      && ((forall k :: k in ["Value", "value", "Item1", "item1"] ==> k !in fields) ==> v.value == "")
      && ((forall k :: k in ["Noticeable", "noticeable", "Item2", "item2"] ==> k !in fields) ==> !v.noticeable)
      && ("Value" in fields && !fields["Value"].JUndefined? && !fields["Value"].JNull? ==> v.value == StringOf(fields["Value"]))
      && ("Noticeable" in fields && fields["Noticeable"].JBool? ==> v.noticeable == fields["Noticeable"].b)
  {
    PickFirstSpec(fields, ["Value", "value", "Item1", "item1"]);
    PickFirstSpec(fields, ["Noticeable", "noticeable", "Item2", "item2"]);
  }

  /** A value given as a pair (a serialised tuple) takes its text from element 0 and its flag from element 1. */
  lemma NormaliseValueOfPair(value: string, notable: bool)
    ensures NormaliseValue(JArray([JString(value), JBool(notable)])) == DefinitionValue(value, notable)
    ensures NormaliseValue(JArray([])) == DefinitionValue("", false)
  {
  }

  /**
   * normaliseDefinition: the values come from `Values.Values`, each
   * normalised, and are empty when that is not an array; `allowMultiple`
   * defaults to false when none of its four aliases is present.
   */
  lemma NormaliseDefinitionSpec(fields: map<string, Json>)
    ensures var d := NormaliseDefinition(JObject(fields));
      var inner := PickFirst(AsRecord(PickFirst(fields, ["Values", "values"])), ["Values", "values"]);
      && (inner.JArray? ==> |d.values| == |inner.items| && forall i :: 0 <= i < |inner.items| ==> d.values[i] == NormaliseValue(inner.items[i]))
      && (!inner.JArray? ==> d.values == [])
      && ((forall i :: 0 <= i < |AllowMultipleKeys| ==> AllowMultipleKeys[i] !in fields) ==> !d.allowMultiple)
      && Trim(d.category) == d.category && Trim(d.entryType) == d.entryType
  {
    PickFirstSpec(fields, AllowMultipleKeys);
    TextFieldTrimmed(fields, ["Category", "category"]);
    TextFieldTrimmed(fields, ["Type", "type"]);
  }

  /** The values of a definition whose `Values` member is a bare array are lost. */
  lemma NormaliseDefinitionFlatValues(items: seq<Json>)
    ensures NormaliseDefinition(JObject(map["Values" := JArray(items)])).values == []
  {
  }

  /**
   * A cleaned list is trimmed, non-empty, free of repeats and strictly
   * increasing in the locale order, and it holds exactly the non-empty
   * trimmed texts of the input.
   */
  lemma CleanListSpec(ss: seq<string>)
    ensures var t := CleanList(ss);
      && (forall i :: 0 <= i < |t| ==> |t[i]| > 0 && Trim(t[i]) == t[i])
      && Distinct(t)
      && (forall i, j :: 0 <= i < j < |t| ==> LocaleLess(t[i], t[j]))
      && (forall x :: x in t <==> x in TrimAll(ss) && |x| > 0)
  {
    var kept := Filter(TrimAll(ss), NonEmpty);
    FilterSpec(TrimAll(ss), NonEmpty);
    UniqueSorted(kept);
    var t := CleanList(ss);
    forall i | 0 <= i < |t|
      ensures |t[i]| > 0 && Trim(t[i]) == t[i]
    {
      assert t[i] in kept;
      TrimAllTrimmed(ss, t[i]);
    }
  }

  /** Removing repeats and sorting leaves the same texts, each once, in strictly increasing order. */
  lemma UniqueSorted(kept: seq<string>)
    ensures var t := SortBy(DedupBy(kept, Identity), LocaleLeq);
      && Distinct(t)
      && (forall i, j :: 0 <= i < j < |t| ==> LocaleLess(t[i], t[j]))
      && (forall x :: x in t <==> x in kept)
  {
    var unique := DedupBy(kept, Identity);
    var t := SortBy(unique, LocaleLeq);
    DedupBySpec(kept, Identity);
    assert Distinct(unique);
    SortByDistinct(unique, LocaleLeq);
    LocaleLeqTotalPreorder();
    SortBySorted(unique, LocaleLeq);
    assert multiset(t) == multiset(unique);
    forall x
      ensures x in t <==> x in unique
    {
      assert x in t <==> x in multiset(t);
      assert x in unique <==> x in multiset(unique);
    }
    forall x | x in kept
      ensures x in unique
    {
      var y :| y in unique && Identity(y) == Identity(x);
    }
    forall i, j | 0 <= i < j < |t|
      ensures LocaleLess(t[i], t[j])
    {
      assert LocaleLeq(t[i], t[j]) && t[i] != t[j];
    }
  }

  /** A text is among the trimmed ones exactly when some input trims to it. */
  lemma TrimAllMembers(ss: seq<string>, x: string)
    ensures x in TrimAll(ss) <==> exists k :: 0 <= k < |ss| && Trim(ss[k]) == x
  {
    if k :| 0 <= k < |ss| && Trim(ss[k]) == x {
      assert TrimAll(ss)[k] == x;
    }
  }

  lemma TrimAllTrimmed(ss: seq<string>, x: string)
    requires x in TrimAll(ss)
    ensures Trim(x) == x
  {
    var k :| 0 <= k < |ss| && TrimAll(ss)[k] == x;
    TrimIdempotent(ss[k]);
  }

  /**
   * The types of a catalogue item are trimmed, non-empty, free of repeats
   * and strictly increasing in the locale order, and they are exactly the
   * non-empty trimmed texts of the listed types.
   */
  lemma TypesOfSpec(items: seq<Json>)
    ensures var t := TypesOf(items);
      && (forall i :: 0 <= i < |t| ==> |t[i]| > 0 && Trim(t[i]) == t[i])
      && Distinct(t)
      && (forall i, j :: 0 <= i < j < |t| ==> LocaleLess(t[i], t[j]))
      && (forall x :: x in t <==> x in TrimmedTypes(items) && |x| > 0)
  {
    CleanListSpec(RawTypes(items));
  }

  /** getWellBeingCategoryTypes keeps exactly the normalised items with a category, in order. */
  lemma CategoryTypesOfSpec(response: Json)
    ensures !response.JArray? ==> CategoryTypesOf(response) == []
    ensures forall c :: c in CategoryTypesOf(response) ==> |c.category| > 0 && Trim(c.category) == c.category
    ensures response.JArray? ==> forall i :: 0 <= i < |response.items| ==>
      (NormaliseCategoryTypes(response.items[i]) in CategoryTypesOf(response) <==> |NormaliseCategoryTypes(response.items[i]).category| > 0)
  {
    if response.JArray? {
      CategoriesTrimmed(response.items);
      NonBlankCategories(NormalisedCategories(response.items));
    }
  }

  /** Dropping the items without a category keeps exactly those with one. */
  lemma NonBlankCategories(all: seq<CategoryTypes>)
    requires forall c :: c in all ==> Trim(c.category) == c.category
    ensures forall c :: c in Filter(all, HasCategory) ==> |c.category| > 0 && Trim(c.category) == c.category
    ensures forall i :: 0 <= i < |all| ==> (all[i] in Filter(all, HasCategory) <==> |all[i].category| > 0)
  {
    FilterSpec(all, HasCategory);
  }

  lemma CategoriesTrimmed(items: seq<Json>)
    ensures forall c :: c in NormalisedCategories(items) ==> Trim(c.category) == c.category
  {
    var all := NormalisedCategories(items);
    forall c | c in all
      ensures Trim(c.category) == c.category
    {
      var i :| 0 <= i < |all| && all[i] == c;
      CategoryTrimmed(items[i]);
    }
  }

  lemma CategoryTrimmed(raw: Json)
    ensures Trim(NormaliseCategoryTypes(raw).category) == NormaliseCategoryTypes(raw).category
  {
    TextFieldTrimmed(AsRecord(raw), ["Category", "category"]);
  }

  /**
   * getAllWellBeingData: an answer of the wrong shape gives no entries;
   * otherwise one entry per item, in order, each normalised, so every
   * category and type text comes back trimmed.
   */
  lemma EntriesOfSpec(response: Json)
    ensures !response.JArray? ==> EntriesOf(response) == []
    ensures response.JArray? ==> |EntriesOf(response)| == |response.items|
    ensures forall i :: 0 <= i < |EntriesOf(response)| ==> EntriesOf(response)[i] == NormaliseEntry(response.items[i])
    ensures forall e :: e in EntriesOf(response) ==> Trim(e.category) == e.category && Trim(e.entryType) == e.entryType
  {
    forall e | e in EntriesOf(response)
      ensures Trim(e.category) == e.category && Trim(e.entryType) == e.entryType
    {
      var i :| 0 <= i < |EntriesOf(response)| && EntriesOf(response)[i] == e;
      TextFieldTrimmed(AsRecord(response.items[i]), ["Category", "category"]);
      TextFieldTrimmed(AsRecord(response.items[i]), ["Type", "type"]);
    }
  }

  /** getWellBeingDefinitions: the same for definitions. */
  lemma DefinitionsOfSpec(response: Json)
    ensures !response.JArray? ==> DefinitionsOf(response) == []
    ensures response.JArray? ==> |DefinitionsOf(response)| == |response.items|
    ensures forall i :: 0 <= i < |DefinitionsOf(response)| ==> DefinitionsOf(response)[i] == NormaliseDefinition(response.items[i])
    ensures forall d :: d in DefinitionsOf(response) ==> Trim(d.category) == d.category && Trim(d.entryType) == d.entryType
  {
    forall d | d in DefinitionsOf(response)
      ensures Trim(d.category) == d.category && Trim(d.entryType) == d.entryType
    {
      var i :| 0 <= i < |DefinitionsOf(response)| && DefinitionsOf(response)[i] == d;
      TextFieldTrimmed(AsRecord(response.items[i]), ["Category", "category"]);
      TextFieldTrimmed(AsRecord(response.items[i]), ["Type", "type"]);
    }
  }

  /**
   * getWellBeingValues: only an object answer carries values; its
   * `Values` list, or failing that its `values` list, gives one value per
   * item, in order, and anything else gives none.
   */
  lemma ValuesOfSpec(response: Json)
    ensures !response.JObject? ==> ValuesOf(response) == []
    ensures response.JObject? && "Values" in response.fields ==>
      ValuesOf(response) == if response.fields["Values"].JArray? then NormaliseValues(response.fields["Values"].items) else []
    ensures response.JObject? && "Values" !in response.fields && "values" in response.fields ==>
      ValuesOf(response) == if response.fields["values"].JArray? then NormaliseValues(response.fields["values"].items) else []
    ensures response.JObject? && "Values" !in response.fields && "values" !in response.fields ==> ValuesOf(response) == []
    ensures forall i :: 0 <= i < |ValuesOf(response)| ==>
      ValuesOf(response)[i] == NormaliseValue(PickFirst(AsRecord(response), ["Values", "values"]).items[i])
  {
    var keys := ["Values", "values"];
    assert keys[1..] == ["values"] && keys[1..][1..] == [];
  }
}
