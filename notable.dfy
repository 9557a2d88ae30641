/**
 * The per-category lookup of notable values used by the entry lists: for
 * each normalised type, the union of the noticeable values of all its
 * definitions; and the split of an entry's values into notable and
 * regular ones.
 */
module Notable {
  import opened Text
  import opened Ordering
  import opened Wrappers
  import Api
  import NotableValues

  type TypeMap = map<string, set<string>>

  /** Category key to type key to notable values, as `fetchNotableLookup` assembles it. */
  type Lookup = map<string, TypeMap>

  /**
   * One definition of buildTypeNotableMap: its noticeable values are added
   * to the set of its type, and a set left empty is deleted.
   */
  function TypeStep(m: TypeMap, d: Api.Definition): TypeMap {
    var typeKey := Key(d.entryType);
    var current := if typeKey in m then m[typeKey] else {};
    var union := current + NotableValues.NoticeableKeys(d.values);
    if |union| == 0 then m - {typeKey} else m[typeKey := union]
  }

  function TypeNotableMapOf(defs: seq<Api.Definition>): TypeMap
    decreases |defs|
  {
    if |defs| == 0 then map[] else TypeStep(TypeNotableMapOf(defs[..|defs| - 1]), defs[|defs| - 1])
  }

  /** The union of the noticeable values of every definition of the type `key`. */
  function UnionFor(defs: seq<Api.Definition>, key: string): set<string>
    decreases |defs|
  {
    if |defs| == 0 then {}
    else
      var last := defs[|defs| - 1];
      UnionFor(defs[..|defs| - 1], key) + (if Key(last.entryType) == key then NotableValues.NoticeableKeys(last.values) else {})
  }

  /**
   * One definition of the loop: its values are added one by one to the set
   * of its type (the set the map holds, so the map sees every addition).
   */
  method AddDefinition(m0: TypeMap, d: Api.Definition) returns (m: TypeMap)
    ensures m == TypeStep(m0, d)
  {
    m := m0;
    var typeKey := Key(d.entryType);
    if typeKey !in m {
      m := m[typeKey := {}];
    }
    var notable := AddNoticeable(m[typeKey], d.values);
    if |notable| == 0 {
      m := m - {typeKey};
      assert m == m0 - {typeKey};
    } else {
      m := m[typeKey := notable];
      assert m == m0[typeKey := notable];
    }
  }

  /** The inner loop: each noticeable value is added, normalised, to the type's set. */
  method AddNoticeable(current: set<string>, values: seq<Api.DefinitionValue>) returns (notable: set<string>)
    ensures notable == current + NotableValues.NoticeableKeys(values)
  {
    notable := current;
    assert values[..0] == [];
    for k := 0 to |values|
      invariant notable == current + NotableValues.NoticeableKeys(values[..k])
    {
      assert values[..k + 1][..k] == values[..k];
      if values[k].noticeable {
        notable := notable + {Key(values[k].value)};
      }
    }
    assert values[..|values|] == values;
  }

  /** buildTypeNotableMap. */
  method BuildTypeNotableMap(defs: seq<Api.Definition>) returns (m: TypeMap)
    ensures m == TypeNotableMapOf(defs)
  {
    m := map[];
    for i := 0 to |defs|
      invariant m == TypeNotableMapOf(defs[..i])
    {
      assert defs[..i + 1][..i] == defs[..i];
      m := AddDefinition(m, defs[i]);
    }
    assert defs[..|defs|] == defs;
  }

  /**
   * A type is in the map exactly when some definition of it has a
   * noticeable value, and its set is the union of the noticeable values of
   * all its definitions: later definitions add to earlier ones.
   */
  lemma {:induction false} TypeNotableMapSpec(defs: seq<Api.Definition>, key: string)
    ensures key in TypeNotableMapOf(defs) <==> UnionFor(defs, key) != {}
    ensures key in TypeNotableMapOf(defs) ==> TypeNotableMapOf(defs)[key] == UnionFor(defs, key)
    decreases |defs|
  {
    if |defs| > 0 {
      TypeNotableMapSpec(defs[..|defs| - 1], key);
    }
  }

  /** The union holds a value exactly when some definition of the type lists it as noticeable. */
  lemma {:induction false} UnionForSpec(defs: seq<Api.Definition>, key: string, x: string)
    ensures x in UnionFor(defs, key) <==>
      exists i, j :: 0 <= i < |defs| && 0 <= j < |defs[i].values| && Key(defs[i].entryType) == key
        && defs[i].values[j].noticeable && Key(defs[i].values[j].value) == x
    decreases |defs|
  {
    if |defs| > 0 {
      var init, last := defs[..|defs| - 1], defs[|defs| - 1];
      UnionForSpec(init, key, x);
      NotableValues.NoticeableKeysSpec(last.values);
      if i, j :| (0 <= i < |init| && 0 <= j < |init[i].values| && Key(init[i].entryType) == key
          && init[i].values[j].noticeable && Key(init[i].values[j].value) == x) {
        assert defs[i] == init[i];
      }
      if i, j :| (0 <= i < |defs| && 0 <= j < |defs[i].values| && Key(defs[i].entryType) == key
          && defs[i].values[j].noticeable && Key(defs[i].values[j].value) == x) {
        if i < |init| {
          assert defs[i] == init[i];
        }
      }
    }
  }

  // ---- assembling the lookup ----

  /** The categories of the entries by key, each spelled as its first entry spells it. */
  function FirstSpellings(entries: seq<Api.Entry>): map<string, string>
    decreases |entries|
  {
    if |entries| == 0 then map[]
    else
      var m := FirstSpellings(entries[..|entries| - 1]);
      var last := entries[|entries| - 1];
      if Key(last.category) in m then m else m[Key(last.category) := last.category]
  }

  /** The loop of fetchNotableLookup that fills `categoryMap`, keeping the first spelling of each key. */
  method CategorySpellings(entries: seq<Api.Entry>) returns (categoryMap: map<string, string>)
    ensures categoryMap == FirstSpellings(entries)
  {
    categoryMap := map[];
    for i := 0 to |entries|
      invariant categoryMap == FirstSpellings(entries[..i])
    {
      assert entries[..i + 1][..i] == entries[..i];
      var categoryKey := Key(entries[i].category);
      if categoryKey !in categoryMap {
        categoryMap := categoryMap[categoryKey := entries[i].category];
      }
    }
    assert entries[..|entries|] == entries;
  }

  /** A category key is present exactly when some entry has it. */
  lemma {:induction false} FirstSpellingsKeys(entries: seq<Api.Entry>, key: string)
    ensures key in FirstSpellings(entries) <==> exists i :: 0 <= i < |entries| && Key(entries[i].category) == key
    decreases |entries|
  {
    if |entries| > 0 {
      var init := entries[..|entries| - 1];
      FirstSpellingsKeys(init, key);
      if i :| 0 <= i < |init| && Key(init[i].category) == key {
        assert entries[i] == init[i];
      }
      if i :| 0 <= i < |entries| && Key(entries[i].category) == key {
        if i < |init| {
          assert entries[i] == init[i];
        }
      }
    }
  }

  /** The spelling kept for a key is that of the first entry with the key. */
  lemma {:induction false} FirstSpellingWins(entries: seq<Api.Entry>, i: int)
    requires 0 <= i < |entries|
    requires forall j :: 0 <= j < i ==> Key(entries[j].category) != Key(entries[i].category)
    ensures Key(entries[i].category) in FirstSpellings(entries)
    ensures FirstSpellings(entries)[Key(entries[i].category)] == entries[i].category
    decreases |entries|
  {
    var init := entries[..|entries| - 1];
    if i < |entries| - 1 {
      assert init[i] == entries[i];
      forall j | 0 <= j < i
        ensures Key(init[j].category) != Key(init[i].category)
      {
        assert init[j] == entries[j];
      }
      FirstSpellingWins(init, i);
    } else {
      FirstSpellingsKeys(init, Key(entries[i].category));
      forall j | 0 <= j < |init|
        ensures Key(init[j].category) != Key(entries[i].category)
      {
        assert init[j] == entries[j];
      }
    }
  }

  /**
   * The lookup once every request has settled: each category key gets the
   * type map of its definitions, or an empty one when its request failed
   * (`None`).
   */
  function AssembleLookup(categoryMap: map<string, string>, fetched: map<string, Option<seq<Api.Definition>>>): (r: Lookup)
    requires forall k :: k in categoryMap ==> k in fetched
    ensures forall k :: k in r <==> k in categoryMap
  {
    map k | k in categoryMap :: if fetched[k].Some? then TypeNotableMapOf(fetched[k].value) else map[]
  }

  /**
   * Under the assembled lookup an entry's type has a set exactly when its
   * category's definitions arrived and some definition of the type lists a
   * noticeable value, and that set is the union of them; when the request
   * failed nothing of the entry is notable.
   */
  lemma LookupForEntry(entries: seq<Api.Entry>, fetched: map<string, Option<seq<Api.Definition>>>, i: int)
    requires forall k :: k in FirstSpellings(entries) ==> k in fetched
    requires 0 <= i < |entries|
    ensures Key(entries[i].category) in FirstSpellings(entries)
    ensures var lookup := AssembleLookup(FirstSpellings(entries), fetched);
      var e := entries[i];
      var result := fetched[Key(e.category)];
      && (result.None? ==> !HasNotableValue(e, lookup) && RegularPart(lookup, e) == e.values)
      && (result.Some? ==>
            (NotableSetFor(lookup, e).Some? <==> UnionFor(result.value, Key(e.entryType)) != {})
            && (NotableSetFor(lookup, e).Some? ==> NotableSetFor(lookup, e).value == UnionFor(result.value, Key(e.entryType))))
  {
    var e := entries[i];
    FirstSpellingsKeys(entries, Key(e.category));
    var result := fetched[Key(e.category)];
    if result.Some? {
      TypeNotableMapSpec(result.value, Key(e.entryType));
    }
  }

  // ---- splitting an entry's values ----

  /** `lookup[categoryKey]?.[typeKey]`: present even when empty. */
  function NotableSetFor(lookup: Lookup, entry: Api.Entry): Option<set<string>> {
    var categoryKey := Key(entry.category);
    var typeKey := Key(entry.entryType);
    if categoryKey in lookup && typeKey in lookup[categoryKey] then Some(lookup[categoryKey][typeKey]) else None
  }

  function InSet(s: set<string>): string -> bool {
    v => Key(v) in s
  }

  function NotInSet(s: set<string>): string -> bool {
    v => Key(v) !in s
  }

  /** The notable values of the entry, in order. */
  function NotablePart(lookup: Lookup, entry: Api.Entry): seq<string> {
    match NotableSetFor(lookup, entry)
    case None => []
    case Some(s) => Filter(entry.values, InSet(s))
  }

  /** The regular values of the entry, in order: all of them when its type has no set. */
  function RegularPart(lookup: Lookup, entry: Api.Entry): seq<string> {
    match NotableSetFor(lookup, entry)
    case None => entry.values
    case Some(s) => Filter(entry.values, NotInSet(s))
  }

  /** splitEntryValues. */
  method SplitEntryValues(entry: Api.Entry, lookup: Lookup) returns (notable: seq<string>, regular: seq<string>)
    ensures notable == NotablePart(lookup, entry) && regular == RegularPart(lookup, entry)
  {
    var notableSet := NotableSetFor(lookup, entry);
    if |entry.values| == 0 || notableSet.None? {
      return [], entry.values;
    }
    var s := notableSet.value;
    notable, regular := [], [];
    var values := entry.values;
    for i := 0 to |values|
      invariant notable == Filter(values[..i], InSet(s))
      invariant regular == Filter(values[..i], NotInSet(s))
    {
      assert values[..i + 1][..i] == values[..i];
      if Key(values[i]) in s {
        notable := notable + [values[i]];
      } else {
        regular := regular + [values[i]];
      }
    }
    assert values[..|values|] == values;
  }

  /** hasNotableValue. */
  predicate HasNotableValue(entry: Api.Entry, lookup: Lookup) {
    |NotablePart(lookup, entry)| > 0
  }

  /** With no set for its category and type, nothing is notable and every value is regular. */
  lemma SplitWithoutSet(lookup: Lookup, entry: Api.Entry)
    requires NotableSetFor(lookup, entry).None?
    ensures NotablePart(lookup, entry) == [] && RegularPart(lookup, entry) == entry.values
    ensures !HasNotableValue(entry, lookup)
  {
  }

  /**
   * The split is an order-preserving partition of the values by
   * membership of their normalised form in the type's set.
   */
  lemma SplitPartition(lookup: Lookup, entry: Api.Entry)
    ensures |NotablePart(lookup, entry)| + |RegularPart(lookup, entry)| == |entry.values|
    ensures multiset(NotablePart(lookup, entry)) + multiset(RegularPart(lookup, entry)) == multiset(entry.values)
    ensures Subseq(NotablePart(lookup, entry), entry.values) && Subseq(RegularPart(lookup, entry), entry.values)
  {
    match NotableSetFor(lookup, entry)
    case None =>
      FilterSpec(entry.values, (v: string) => true);
      FilterTrivial(entry.values, (v: string) => true);
    case Some(s) =>
      FilterComplement(entry.values, InSet(s), NotInSet(s));
      FilterSpec(entry.values, InSet(s));
      FilterSpec(entry.values, NotInSet(s));
  }

  /** hasNotableValue holds exactly when the type has a set and some value's normalised form is in it. */
  lemma HasNotableValueSpec(lookup: Lookup, entry: Api.Entry)
    ensures HasNotableValue(entry, lookup) <==>
      NotableSetFor(lookup, entry).Some? && exists i :: 0 <= i < |entry.values| && Key(entry.values[i]) in NotableSetFor(lookup, entry).value
  {
    match NotableSetFor(lookup, entry)
    case None =>
    case Some(s) =>
      var n := Filter(entry.values, InSet(s));
      FilterSpec(entry.values, InSet(s));
      if i :| 0 <= i < |entry.values| && Key(entry.values[i]) in s {
        assert entry.values[i] in n;
      }
      if |n| > 0 {
        assert n[0] in n;
      }
  }

  /** Values are matched in normalised form: a value differing only in case or surrounding blanks splits the same way. */
  lemma SplitIgnoresCase(s: set<string>, v: string)
    ensures InSet(s)(v) == InSet(s)(Key(v))
  {
    KeyIdempotent(v);
  }
}
