/**
 * The data explorer: the category and type chips offered for the loaded
 * entries, the selection toggles and their pruning, and the filtered,
 * searched and date-ordered list of entries.
 */
module DataExplorer {
  import opened Text
  import opened Ordering
  import Api

  /** toCategoryKey. */
  function CategoryKey(category: string): string {
    Key(category)
  }

  /** toTypeKey: the folded category and type, joined by `|`. */
  function TypeKey(e: Api.Entry): string {
    CategoryKey(e.category) + "|" + Key(e.entryType)
  }

  /** formatLabel: the first character upper-cased. */
  function FormatLabel(value: string): (r: string)
    ensures |r| == |value|
  {
    if value == "" then value else [UpperChar(value[0])] + value[1..]
  }

  /**
   * Formatting changes at most the first character, only from a lower-case
   * letter to its capital, and formatting twice is formatting once.
   */
  lemma FormatLabelSpec(value: string)
    ensures var r := FormatLabel(value);
      && (value == "" ==> r == "")
      && (|value| > 0 ==> r[1..] == value[1..])
      && (|value| > 0 && !('a' <= value[0] <= 'z') ==> r == value)
      && (|value| > 0 && 'a' <= value[0] <= 'z' ==> 'A' <= r[0] <= 'Z' && r[0] as int == value[0] as int - 32)
      && FormatLabel(r) == r
  {
  }

  // ---- options ----

  datatype ChipOption = ChipOption(key: string, text: string)

  function OptionKey(o: ChipOption): string { o.key }

  predicate TextLeq(a: ChipOption, b: ChipOption) {
    LocaleLeq(a.text, b.text)
  }

  /** The options of a sequence of chips: the first chip of each key, sorted by text. */
  function OptionsOf(chips: seq<ChipOption>): seq<ChipOption> {
    SortBy(DedupBy(chips, OptionKey), TextLeq)
  }

  /** categoryOptions: keyed by folded category, shown with the first spelling met. */
  function CategoryOptions(entries: seq<Api.Entry>): seq<ChipOption> {
    OptionsOf(seq(|entries|, i requires 0 <= i < |entries| => ChipOption(CategoryKey(entries[i].category), entries[i].category)))
  }

  /** typeOptions: keyed by folded category and type, shown as `type (Category)` of the first entry met. */
  function TypeOptions(entries: seq<Api.Entry>): seq<ChipOption> {
    OptionsOf(seq(|entries|, i requires 0 <= i < |entries| => TypeChip(entries[i])))
  }

  /**
   * The Map filled by forEach in categoryOptions and typeOptions: the first
   * chip of each key is kept, in visiting order; the chips are then sorted.
   */
  method BuildOptions(chips: seq<ChipOption>) returns (options: seq<ChipOption>)
    ensures options == OptionsOf(chips)
  {
    var seen: set<string> := {};
    var firsts: seq<ChipOption> := [];
    assert chips[0..] == chips;
    for i := 0 to |chips|
      invariant firsts + DedupFrom(chips[i..], OptionKey, seen) == DedupBy(chips, OptionKey)
    {
      var rest := chips[i..];
      assert rest[0] == chips[i] && rest[1..] == chips[i + 1..];
      var key := OptionKey(chips[i]);
      if key !in seen {
        seen := seen + {key};
        firsts := firsts + [chips[i]];
      }
    }
    assert chips[|chips|..] == [];
    assert firsts == DedupBy(chips, OptionKey);
    options := SortBy(firsts, TextLeq);
  }

  function TypeChip(e: Api.Entry): ChipOption {
    ChipOption(TypeKey(e), e.entryType + " (" + FormatLabel(e.category) + ")")
  }

  lemma TextLeqTotalPreorder()
    ensures TotalPreorder(TextLeq)
  {
    LocaleLeqTotalPreorder();
    assert forall a, b :: TextLeq(a, b) == LocaleLeq(a.text, b.text);
  }

  /**
   * Options are sorted by text and have distinct keys; each is the first
   * chip with its key, and every chip's key has an option.
   */
  lemma OptionsSpec(chips: seq<ChipOption>)
    ensures var r := OptionsOf(chips);
      && SortedBy(r, TextLeq)
      && (forall i, j :: 0 <= i < j < |r| ==> r[i].key != r[j].key)
      && (forall o :: o in r ==> o in chips && o == FirstWithKey(chips, OptionKey, o.key))
      && (forall c :: c in chips ==> exists o :: o in r && o.key == c.key)
  {
    var unique := DedupBy(chips, OptionKey);
    var r := OptionsOf(chips);
    TextLeqTotalPreorder();
    SortBySorted(unique, TextLeq);
    DedupBySpec(chips, OptionKey);
    SortByKeysDistinct(unique, TextLeq, OptionKey);
    forall x
      ensures x in r <==> x in unique
    {
      assert x in r <==> x in multiset(r);
      assert x in unique <==> x in multiset(unique);
    }
    forall c | c in chips
      ensures exists o :: o in r && o.key == c.key
    {
      var o :| o in unique && OptionKey(o) == OptionKey(c);
      assert o in r;
    }
  }

  /**
   * There is one category option per folded category of the entries, and
   * it shows the category as the first entry of that key spells it.
   */
  lemma CategoryOptionsSpec(entries: seq<Api.Entry>)
    ensures var r := CategoryOptions(entries);
      && (forall i, j :: 0 <= i < j < |r| ==> r[i].key != r[j].key)
      && (forall i, j :: 0 <= i < j < |r| ==> LocaleLeq(r[i].text, r[j].text))
      && (forall k :: 0 <= k < |entries| ==> exists o :: o in r && o.key == CategoryKey(entries[k].category))
      && (forall o :: o in r ==> exists k :: (0 <= k < |entries| && o == ChipOption(CategoryKey(entries[k].category), entries[k].category)
            && forall j :: 0 <= j < k ==> CategoryKey(entries[j].category) != o.key))
  {
    var chips := seq(|entries|, i requires 0 <= i < |entries| => ChipOption(CategoryKey(entries[i].category), entries[i].category));
    OptionsSpec(chips);
    forall k | 0 <= k < |entries|
      ensures exists o :: o in CategoryOptions(entries) && o.key == CategoryKey(entries[k].category)
    {
      assert chips[k] in chips;
    }
    forall o | o in CategoryOptions(entries)
      ensures exists k :: (0 <= k < |entries| && o == ChipOption(CategoryKey(entries[k].category), entries[k].category)
            && forall j :: 0 <= j < k ==> CategoryKey(entries[j].category) != o.key)
    {
      var k := FirstWithKeyIndex(chips, OptionKey, o.key);
      assert o == chips[k];
      forall j | 0 <= j < k
        ensures CategoryKey(entries[j].category) != o.key
      {
        assert OptionKey(chips[j]) != o.key;
      }
    }
  }

  /**
   * There is one type option per folded (category, type) pair of the
   * entries, and it shows the type and category of the first entry of
   * that pair.
   */
  lemma TypeOptionsSpec(entries: seq<Api.Entry>)
    ensures var r := TypeOptions(entries);
      && (forall i, j :: 0 <= i < j < |r| ==> r[i].key != r[j].key)
      && (forall i, j :: 0 <= i < j < |r| ==> LocaleLeq(r[i].text, r[j].text))
      && (forall k :: 0 <= k < |entries| ==> exists o :: o in r && o.key == TypeKey(entries[k]))
      && (forall o :: o in r ==> exists k :: (0 <= k < |entries| && o == TypeChip(entries[k])
            && forall j :: 0 <= j < k ==> TypeKey(entries[j]) != o.key))
  {
    var chips := seq(|entries|, i requires 0 <= i < |entries| => TypeChip(entries[i]));
    OptionsSpec(chips);
    forall k | 0 <= k < |entries|
      ensures exists o :: o in TypeOptions(entries) && o.key == TypeKey(entries[k])
    {
      assert chips[k] in chips;
    }
    forall o | o in TypeOptions(entries)
      ensures exists k :: (0 <= k < |entries| && o == TypeChip(entries[k])
            && forall j :: 0 <= j < k ==> TypeKey(entries[j]) != o.key)
    {
      var k := FirstWithKeyIndex(chips, OptionKey, o.key);
      assert o == chips[k] == TypeChip(entries[k]);
      forall j | 0 <= j < k
        ensures TypeKey(entries[j]) != o.key
      {
        assert OptionKey(chips[j]) != o.key;
      }
    }
  }

  // ---- selections ----

  function NotEqual(key: string): string -> bool {
    (v: string) => v != key
  }

  /** toggleCategory and toggleType: remove a selected key, append an unselected one. */
  function Toggle(prev: seq<string>, key: string): seq<string> {
    if key in prev then Filter(prev, NotEqual(key)) else prev + [key]
  }

  /** Toggling flips the membership of the key and of no other; toggling a new key twice restores the selection. */
  lemma ToggleSpec(prev: seq<string>, key: string)
    ensures key in Toggle(prev, key) <==> key !in prev
    ensures forall x :: x != key ==> (x in Toggle(prev, key) <==> x in prev)
    ensures key !in prev ==> Toggle(Toggle(prev, key), key) == prev
  {
    FilterSpec(prev, NotEqual(key));
    if key !in prev {
      FilterAppend(prev, [key], NotEqual(key));
      FilterTrivial(prev, NotEqual(key));
      assert Filter([key], NotEqual(key)) == [];
    }
  }

  function HasOption(options: seq<ChipOption>): string -> bool {
    (key: string) => exists i :: 0 <= i < |options| && options[i].key == key
  }

  /** The pruning effect: selected keys without an option are dropped. */
  function Prune(prev: seq<string>, options: seq<ChipOption>): seq<string> {
    Filter(prev, HasOption(options))
  }

  /** Pruning keeps, in order, exactly the selected keys that still have an option, and a pruned selection stays as it is. */
  lemma PruneSpec(prev: seq<string>, options: seq<ChipOption>)
    ensures forall x :: x in Prune(prev, options) <==> x in prev && exists i :: 0 <= i < |options| && options[i].key == x
    ensures Subseq(Prune(prev, options), prev)
    ensures Prune(Prune(prev, options), options) == Prune(prev, options)
  {
    FilterSpec(prev, HasOption(options));
    FilterTrivial(Prune(prev, options), HasOption(options));
  }

  // ---- the filtered list ----

  /** The searched texts of an entry: date, category, type and values. */
  function Fields(e: Api.Entry): seq<string> {
    [e.date, e.category, e.entryType] + e.values
  }

  /** Some non-empty field contains the lowered query, ignoring case. */
  predicate MatchesQuery(e: Api.Entry, lowered: string) {
    exists i :: 0 <= i < |Fields(e)| && Fields(e)[i] != "" && Contains(Fold(Fields(e)[i]), lowered)
  }

  predicate Keeps(categories: seq<string>, types: seq<string>, lowered: string, e: Api.Entry) {
    && (|categories| == 0 || CategoryKey(e.category) in categories)
    && (|types| == 0 || TypeKey(e) in types)
    && (lowered == "" || MatchesQuery(e, lowered))
  }

  function Keep(categories: seq<string>, types: seq<string>, lowered: string): Api.Entry -> bool {
    (e: Api.Entry) => Keeps(categories, types, lowered, e)
  }

  /** `a` may come before `b`: its date is not earlier, in code-unit order. */
  predicate LaterFirst(a: Api.Entry, b: Api.Entry) {
    CodeLeq(b.date, a.date)
  }

  /** filteredEntries. */
  function FilteredEntries(entries: seq<Api.Entry>, categories: seq<string>, types: seq<string>, query: string): seq<Api.Entry> {
    SortBy(Filter(entries, Keep(categories, types, Key(query))), LaterFirst)
  }

  lemma LaterFirstTotalPreorder()
    ensures TotalPreorder(LaterFirst)
  {
    CodeLeqTotalPreorder();
    assert forall a, b :: LaterFirst(a, b) == CodeLeq(b.date, a.date);
  }

  /**
   * The list holds each loaded entry that passes the category, type and
   * query tests, as often as it was loaded, latest date first.
   */
  lemma FilteredEntriesSpec(entries: seq<Api.Entry>, categories: seq<string>, types: seq<string>, query: string)
    ensures var r := FilteredEntries(entries, categories, types, query);
      && multiset(r) == multiset(Filter(entries, Keep(categories, types, Key(query))))
      && (forall e :: e in r <==> e in entries && Keeps(categories, types, Key(query), e))
      && (forall i, j :: 0 <= i < j < |r| ==> CodeLeq(r[j].date, r[i].date))
  {
    var kept := Filter(entries, Keep(categories, types, Key(query)));
    var r := FilteredEntries(entries, categories, types, query);
    FilterSpec(entries, Keep(categories, types, Key(query)));
    LaterFirstTotalPreorder();
    SortBySorted(kept, LaterFirst);
    forall e
      ensures e in r <==> e in kept
    {
      assert e in r <==> e in multiset(r);
      assert e in kept <==> e in multiset(kept);
    }
  }

  /** With nothing selected and a blank query every entry is listed. */
  lemma NothingSelectedListsAll(entries: seq<Api.Entry>, query: string)
    requires Trim(query) == ""
    ensures multiset(FilteredEntries(entries, [], [], query)) == multiset(entries)
  {
    assert Key(query) == "";
    FilterTrivial(entries, Keep([], [], Key(query)));
  }

  /** Only the query's folded, trimmed form matters: the search ignores case. */
  lemma QueryIgnoresCase(entries: seq<Api.Entry>, categories: seq<string>, types: seq<string>, query: string)
    ensures FilteredEntries(entries, categories, types, Fold(query)) == FilteredEntries(entries, categories, types, query)
  {
    TrimFold(query);
    FoldIdempotent(Trim(query));
    assert Key(Fold(query)) == Key(query);
  }

  /** A query that starts the lower-cased category of an entry finds it. */
  lemma QueryFindsCategory(e: Api.Entry, query: string)
    requires Key(query) != "" && Key(query) <= Fold(e.category)
    ensures MatchesQuery(e, Key(query))
  {
    assert Fields(e)[1] == e.category;
    assert e.category != "";
  }
}
