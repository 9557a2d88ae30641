/**
 * Which values of an entry are notable, looked up by the entry's
 * (category, type) key in a map built from the catalogue's definitions.
 * Keys and values are compared in their trimmed, lower-cased form.
 */
module NotableValues {
  import opened Text
  import opened Ordering
  import Api

  /** `getEntryKey`: the normalised category and type joined by a bar. */
  function EntryKey(category: string, entryType: string): string {
    Key(category) + "|" + Key(entryType)
  }

  /** The definitions of one category, as the map builder receives them. */
  datatype DefinitionsByCategory = DefinitionsByCategory(category: string, definitions: seq<Api.Definition>)

  /** The normalised texts of the noticeable values of a definition. */
  function NoticeableKeys(values: seq<Api.DefinitionValue>): set<string>
    decreases |values|
  {
    if |values| == 0 then {}
    else NoticeableKeys(values[..|values| - 1])
         + (if values[|values| - 1].noticeable then {Key(values[|values| - 1].value)} else {})
  }

  lemma {:induction false} NoticeableKeysSpec(values: seq<Api.DefinitionValue>)
    ensures forall x :: x in NoticeableKeys(values) <==>
      exists j :: 0 <= j < |values| && values[j].noticeable && Key(values[j].value) == x
    decreases |values|
  {
    if |values| > 0 {
      var init := values[..|values| - 1];
      NoticeableKeysSpec(init);
      forall x
        ensures x in NoticeableKeys(values) <==>
          exists j :: 0 <= j < |values| && values[j].noticeable && Key(values[j].value) == x
      {
        if x in NoticeableKeys(init) {
          var j :| 0 <= j < |init| && init[j].noticeable && Key(init[j].value) == x;
          assert values[j] == init[j];
        }
        if j :| 0 <= j < |values| && values[j].noticeable && Key(values[j].value) == x {
          if j < |init| {
            assert init[j] == values[j];
          }
        }
      }
    }
  }

  /** The (normalised category, definition) pairs in the order the two nested loops visit them. */
  function Visits(input: seq<DefinitionsByCategory>): seq<(string, Api.Definition)>
    decreases |input|
  {
    if |input| == 0 then []
    else Visits(input[..|input| - 1]) + CategoryVisits(input[|input| - 1])
  }

  function CategoryVisits(c: DefinitionsByCategory): (r: seq<(string, Api.Definition)>)
    ensures |r| == |c.definitions|
  {
    seq(|c.definitions|, i requires 0 <= i < |c.definitions| => (Key(c.category), c.definitions[i]))
  }

  /** One visit: a definition with a noticeable value sets its key, replacing any earlier set. */
  function Step(m: map<string, set<string>>, v: (string, Api.Definition)): map<string, set<string>> {
    var s := NoticeableKeys(v.1.values);
    if |s| > 0 then m[EntryKey(v.0, v.1.entryType) := s] else m
  }

  /** The map after visiting `visits` in order, starting from `m`. */
  function Extend(m: map<string, set<string>>, visits: seq<(string, Api.Definition)>): map<string, set<string>>
    decreases |visits|
  {
    if |visits| == 0 then m
    else Step(Extend(m, visits[..|visits| - 1]), visits[|visits| - 1])
  }

  function NotableMapOf(visits: seq<(string, Api.Definition)>): map<string, set<string>> {
    Extend(map[], visits)
  }

  lemma ExtendSnoc(m: map<string, set<string>>, v: seq<(string, Api.Definition)>, x: (string, Api.Definition))
    ensures Extend(m, v + [x]) == Step(Extend(m, v), x)
  {
    assert (v + [x])[..|v|] == v;
  }

  lemma {:induction false} ExtendAppend(m: map<string, set<string>>, a: seq<(string, Api.Definition)>, b: seq<(string, Api.Definition)>)
    ensures Extend(m, a + b) == Extend(Extend(m, a), b)
    decreases |b|
  {
    if |b| == 0 {
      assert a + b == a;
    } else {
      var init, last := b[..|b| - 1], b[|b| - 1];
      ExtendAppend(m, a, init);
      assert a + b == (a + init) + [last] by {
        assert b == init + [last];
      }
      ExtendSnoc(m, a + init, last);
      ExtendSnoc(Extend(m, a), init, last);
      assert init + [last] == b;
    }
  }

  /** The set a definition contributes, filled value by value. */
  method NoticeableSet(values: seq<Api.DefinitionValue>) returns (s: set<string>)
    ensures s == NoticeableKeys(values)
  {
    s := {};
    for k := 0 to |values|
      invariant s == NoticeableKeys(values[..k])
    {
      assert values[..k + 1][..k] == values[..k];
      if values[k].noticeable {
        s := s + {Key(values[k].value)};
      }
    }
    assert values[..|values|] == values;
  }

  /** The inner loop of buildNotableValuesMap: the definitions of one category, in order. */
  method AddCategory(m0: map<string, set<string>>, c: DefinitionsByCategory) returns (m: map<string, set<string>>)
    ensures m == Extend(m0, CategoryVisits(c))
  {
    m := m0;
    var categoryKey := Key(c.category);
    var definitions := c.definitions;
    for j := 0 to |definitions|
      invariant m == Extend(m0, CategoryVisits(c)[..j])
    {
      var definition := definitions[j];
      var key := EntryKey(categoryKey, definition.entryType);
      var s := NoticeableSet(definition.values);
      assert CategoryVisits(c)[..j + 1][..j] == CategoryVisits(c)[..j];
      if |s| > 0 {
        m := m[key := s];
      }
    }
    assert CategoryVisits(c)[..|definitions|] == CategoryVisits(c);
  }

  /** buildNotableValuesMap: every definition of every category, in order. */
  method BuildNotableValuesMap(input: seq<DefinitionsByCategory>) returns (m: map<string, set<string>>)
    ensures m == NotableMapOf(Visits(input))
  {
    m := map[];
    for i := 0 to |input|
      invariant m == NotableMapOf(Visits(input[..i]))
    {
      assert input[..i + 1][..i] == input[..i];
      m := AddCategory(m, input[i]);
      ExtendAppend(map[], Visits(input[..i]), CategoryVisits(input[i]));
    }
    assert input[..|input|] == input;
  }

  /** Visiting `v` sets `key`: `v` has the key and at least one noticeable value. */
  predicate SetsKey(v: (string, Api.Definition), key: string) {
    EntryKey(v.0, v.1.entryType) == key && NoticeableKeys(v.1.values) != {}
  }

  /** One more visit, unfolded. */
  lemma NotableMapOfSnoc(visits: seq<(string, Api.Definition)>, v: (string, Api.Definition))
    ensures NotableMapOf(visits + [v]) ==
      if NoticeableKeys(v.1.values) != {} then NotableMapOf(visits)[EntryKey(v.0, v.1.entryType) := NoticeableKeys(v.1.values)]
      else NotableMapOf(visits)
  {
    assert (visits + [v])[..|visits|] == visits;
  }

  /** A key is in the map exactly when some visited definition with that key has a noticeable value. */
  lemma {:induction false} NotableMapKeys(visits: seq<(string, Api.Definition)>, key: string)
    ensures key in NotableMapOf(visits) <==> exists i :: 0 <= i < |visits| && SetsKey(visits[i], key)
    decreases |visits|
  {
    if |visits| > 0 {
      var init := visits[..|visits| - 1];
      NotableMapKeys(init, key);
      assert visits == init + [visits[|visits| - 1]];
      NotableMapOfSnoc(init, visits[|visits| - 1]);
      if i :| 0 <= i < |init| && SetsKey(init[i], key) {
        assert SetsKey(visits[i], key);
      }
      if i :| 0 <= i < |visits| && SetsKey(visits[i], key) {
        if i < |init| {
          assert SetsKey(init[i], key);
        }
      }
    }
  }

  /** The set of a key is that of the last visited definition that sets it: a later one replaces an earlier one. */
  lemma {:induction false} NotableMapLastWins(visits: seq<(string, Api.Definition)>, key: string, i: int)
    requires 0 <= i < |visits| && SetsKey(visits[i], key)
    requires forall j :: i < j < |visits| ==> !SetsKey(visits[j], key)
    ensures key in NotableMapOf(visits) && NotableMapOf(visits)[key] == NoticeableKeys(visits[i].1.values)
    decreases |visits|
  {
    var init := visits[..|visits| - 1];
    var last := visits[|visits| - 1];
    assert visits == init + [last];
    NotableMapOfSnoc(init, last);
    if i < |init| {
      assert !SetsKey(last, key);
      NotableMapLastWins(init, key, i);
    }
  }

  /** The key a definition is stored under is the entry key of its category and type, whatever their case or blanks. */
  lemma VisitKey(c: DefinitionsByCategory, i: int)
    requires 0 <= i < |c.definitions|
    ensures var v := CategoryVisits(c)[i];
      EntryKey(v.0, v.1.entryType) == EntryKey(c.category, c.definitions[i].entryType)
  {
    KeyIdempotent(c.category);
  }

  /** `getEntryKey` ignores letter case and surrounding blanks. */
  lemma EntryKeyNormalised(category: string, entryType: string)
    ensures EntryKey(Key(category), Key(entryType)) == EntryKey(category, entryType)
    ensures EntryKey(Fold(category), Fold(entryType)) == EntryKey(category, entryType)
  {
    KeyIdempotent(category);
    KeyIdempotent(entryType);
    TrimFold(category);
    TrimFold(entryType);
    FoldIdempotent(Trim(category));
    FoldIdempotent(Trim(entryType));
  }

  /** `isValueNotable`: false without a set for the key, otherwise membership of the normalised value. */
  predicate IsValueNotable(m: map<string, set<string>>, category: string, entryType: string, value: string) {
    var key := EntryKey(category, entryType);
    key in m && Key(value) in m[key]
  }

  function NotableIn(m: map<string, set<string>>, entry: Api.Entry): string -> bool {
    v => IsValueNotable(m, entry.category, entry.entryType, v)
  }

  function OtherIn(m: map<string, set<string>>, entry: Api.Entry): string -> bool {
    v => !IsValueNotable(m, entry.category, entry.entryType, v)
  }

  /** `hasNotableValue`: some value of the entry is notable. */
  predicate HasNotableValue(m: map<string, set<string>>, entry: Api.Entry) {
    exists i :: 0 <= i < |entry.values| && IsValueNotable(m, entry.category, entry.entryType, entry.values[i])
  }

  /** splitValuesByNotable: the notable values and the others, each in entry order. */
  method SplitValuesByNotable(m: map<string, set<string>>, entry: Api.Entry) returns (notable: seq<string>, other: seq<string>)
    ensures notable == Filter(entry.values, NotableIn(m, entry))
    ensures other == Filter(entry.values, OtherIn(m, entry))
  {
    notable, other := [], [];
    if |entry.values| == 0 {
      return;
    }
    var values := entry.values;
    for i := 0 to |values|
      invariant notable == Filter(values[..i], NotableIn(m, entry))
      invariant other == Filter(values[..i], OtherIn(m, entry))
    {
      assert values[..i + 1][..i] == values[..i];
      if IsValueNotable(m, entry.category, entry.entryType, values[i]) {
        notable := notable + [values[i]];
      } else {
        other := other + [values[i]];
      }
    }
    assert values[..|values|] == values;
  }

  /** The split is a partition: the lengths add up and no value is lost or duplicated. */
  lemma SplitPartition(m: map<string, set<string>>, entry: Api.Entry)
    ensures |Filter(entry.values, NotableIn(m, entry))| + |Filter(entry.values, OtherIn(m, entry))| == |entry.values|
    ensures multiset(Filter(entry.values, NotableIn(m, entry))) + multiset(Filter(entry.values, OtherIn(m, entry))) == multiset(entry.values)
  {
    FilterComplement(entry.values, NotableIn(m, entry), OtherIn(m, entry));
  }

  /** The notable part holds exactly the notable values, and is non-empty exactly when the entry has one. */
  lemma SplitNotablePart(m: map<string, set<string>>, entry: Api.Entry)
    ensures forall v :: v in Filter(entry.values, NotableIn(m, entry)) <==>
      v in entry.values && IsValueNotable(m, entry.category, entry.entryType, v)
    ensures |Filter(entry.values, NotableIn(m, entry))| > 0 <==> HasNotableValue(m, entry)
  {
    var n := Filter(entry.values, NotableIn(m, entry));
    FilterSpec(entry.values, NotableIn(m, entry));
    if HasNotableValue(m, entry) {
      var i :| 0 <= i < |entry.values| && IsValueNotable(m, entry.category, entry.entryType, entry.values[i]);
      assert entry.values[i] in n;
    }
    if |n| > 0 {
      assert n[0] in n;
    }
  }

  /** The other part holds exactly the values that are not notable. */
  lemma SplitOtherPart(m: map<string, set<string>>, entry: Api.Entry)
    ensures forall v :: v in Filter(entry.values, OtherIn(m, entry)) <==>
      v in entry.values && !IsValueNotable(m, entry.category, entry.entryType, v)
  {
    FilterSpec(entry.values, OtherIn(m, entry));
  }

  /**
   * A value of an entry is notable under the built map exactly when the
   * last definition of the entry's (category, type) key with a noticeable
   * value lists it as noticeable.
   */
  lemma NotableAfterBuild(visits: seq<(string, Api.Definition)>, i: int, category: string, entryType: string, value: string)
    requires 0 <= i < |visits| && SetsKey(visits[i], EntryKey(category, entryType))
    requires forall j :: i < j < |visits| ==> !SetsKey(visits[j], EntryKey(category, entryType))
    ensures IsValueNotable(NotableMapOf(visits), category, entryType, value) <==>
      exists k :: 0 <= k < |visits[i].1.values| && visits[i].1.values[k].noticeable && Key(visits[i].1.values[k].value) == Key(value)
  {
    NotableMapLastWins(visits, EntryKey(category, entryType), i);
    NoticeableKeysSpec(visits[i].1.values);
  }

  /** Without any definition for its key, no value is notable. */
  lemma NothingNotableWithoutDefinition(visits: seq<(string, Api.Definition)>, entry: Api.Entry)
    requires forall i :: 0 <= i < |visits| ==> EntryKey(visits[i].0, visits[i].1.entryType) != EntryKey(entry.category, entry.entryType)
    ensures !HasNotableValue(NotableMapOf(visits), entry)
    ensures Filter(entry.values, NotableIn(NotableMapOf(visits), entry)) == []
  {
    NotableMapKeys(visits, EntryKey(entry.category, entry.entryType));
    FilterTrivial(entry.values, NotableIn(NotableMapOf(visits), entry));
  }
}
