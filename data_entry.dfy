/**
 * The data entry form: how the selected values follow the definition's
 * `allowMultiple` flag, the type options offered for a category, the
 * catalogue of categories and types, and the guards of submission.
 */
module DataEntry {
  import opened Text
  import opened Ordering
  import opened Wrappers
  import Api

  // ---- selecting values ----

  function NotEqual(value: string): string -> bool {
    (v: string) => v != value
  }

  /** toggleValue: with several values allowed the value is removed or appended; otherwise it becomes the only one. */
  function ToggleValue(prev: seq<string>, value: string, allowMultiple: bool): seq<string> {
    if allowMultiple then
      if value in prev then Filter(prev, NotEqual(value)) else prev + [value]
    else [value]
  }

  /**
   * With several values allowed, toggling flips the membership of the
   * value, leaves every other value in place, appends a new value at the
   * end and keeps a repeat-free selection repeat-free; otherwise the value
   * is selected alone.
   */
  lemma ToggleValueSpec(prev: seq<string>, value: string, allowMultiple: bool)
    ensures var r := ToggleValue(prev, value, allowMultiple);
      && (allowMultiple ==> (value in r <==> value !in prev))
      && (allowMultiple ==> forall x :: x != value ==> (x in r <==> x in prev))
      && (allowMultiple && value !in prev ==> |r| == |prev| + 1 && r[..|prev|] == prev && r[|prev|] == value)
      && (allowMultiple && value in prev ==> Subseq(r, prev))
      && (allowMultiple && Distinct(prev) ==> Distinct(r))
      && (!allowMultiple ==> r == [value])
  {
    FilterSpec(prev, NotEqual(value));
    if allowMultiple && Distinct(prev) {
      if value in prev {
        FilterDistinct(prev, NotEqual(value));
      } else {
        DistinctSnoc(prev, value);
      }
    }
  }

  /** With several values allowed, toggling a new value twice restores the selection. */
  lemma ToggleValueTwice(prev: seq<string>, value: string)
    requires value !in prev
    ensures ToggleValue(ToggleValue(prev, value, true), value, true) == prev
  {
    FilterAppend(prev, [value], NotEqual(value));
    FilterTrivial(prev, NotEqual(value));
    assert Filter([value], NotEqual(value)) == [];
  }

  /** The values a definition allows (`new Set(availableValues.map(v => v.value))`). */
  function AllowedValues(available: seq<Api.DefinitionValue>): set<string> {
    set i | 0 <= i < |available| :: available[i].value
  }

  function IsAllowed(allowed: set<string>): string -> bool {
    (v: string) => v in allowed
  }

  /**
   * The reconciliation effect: without available values the selection is
   * kept (only its first value when one is allowed); otherwise the values
   * no longer allowed are dropped, and only the first is kept when one is
   * allowed.
   */
  function Reconcile(prev: seq<string>, available: seq<Api.DefinitionValue>, allowMultiple: bool): seq<string> {
    if |available| == 0 then
      if allowMultiple then prev else prev[..if |prev| < 1 then |prev| else 1]
    else
      var filtered := Filter(prev, IsAllowed(AllowedValues(available)));
      if !allowMultiple && |filtered| > 1 then filtered[..1] else filtered
  }

  /**
   * Reconciliation only keeps values already selected, in their order;
   * with available values it keeps only allowed ones (all of them when
   * several are allowed); without, it keeps the selection as far as the
   * flag permits; and a single-value definition ends with at most one.
   */
  lemma ReconcileSpec(prev: seq<string>, available: seq<Api.DefinitionValue>, allowMultiple: bool)
    ensures var r := Reconcile(prev, available, allowMultiple);
      var allowed := AllowedValues(available);
      && (forall x :: x in r ==> x in prev)
      && (!allowMultiple ==> |r| <= 1)
      && (|available| == 0 ==> r <= prev && (allowMultiple ==> r == prev))
      && (|available| > 0 ==> r <= Filter(prev, IsAllowed(allowed)))
      && (|available| > 0 ==> forall x :: x in r ==> x in allowed)
      && (|available| > 0 && allowMultiple ==> forall x :: x in prev && x in allowed ==> x in r)
      && (|available| > 0 && !allowMultiple ==> (r == [] <==> forall x :: x in prev ==> x !in allowed))
  {
    var allowed := AllowedValues(available);
    var filtered := Filter(prev, IsAllowed(allowed));
    FilterSpec(prev, IsAllowed(allowed));
    if |available| > 0 && !allowMultiple && |filtered| > 0 {
      assert filtered[0] in filtered;
    }
  }

  /** Reconciling an already reconciled selection changes nothing. */
  lemma ReconcileIdempotent(prev: seq<string>, available: seq<Api.DefinitionValue>, allowMultiple: bool)
    ensures Reconcile(Reconcile(prev, available, allowMultiple), available, allowMultiple) == Reconcile(prev, available, allowMultiple)
  {
    var r := Reconcile(prev, available, allowMultiple);
    ReconcileSpec(prev, available, allowMultiple);
    FilterTrivial(r, IsAllowed(AllowedValues(available)));
  }

  // ---- type options ----

  datatype CatalogueItem = CatalogueItem(labelText: string, types: seq<string>)

  datatype CategoryDefinitions = CategoryDefinitions(labelText: string, definitions: seq<Api.Definition>)

  function DefinitionTypes(defs: seq<Api.Definition>): (r: seq<string>)
    ensures |r| == |defs|
  {
    seq(|defs|, i requires 0 <= i < |defs| => defs[i].entryType)
  }

  /** The catalogue's and the loaded definitions' types of the selected category. */
  function CandidateTypes(catalogue: map<string, CatalogueItem>, byCategory: map<string, CategoryDefinitions>, category: string): seq<string> {
    var key := Key(category);
    (if key in catalogue then catalogue[key].types else [])
    + DefinitionTypes(if key in byCategory then byCategory[key].definitions else [])
  }

  /** typeOptions. */
  function TypeOptions(catalogue: map<string, CatalogueItem>, byCategory: map<string, CategoryDefinitions>, category: string): seq<string> {
    Api.CleanList(CandidateTypes(catalogue, byCategory, category))
  }

  /**
   * The options are trimmed, non-empty, free of repeats and strictly
   * increasing, and an option is offered exactly when some catalogue or
   * definition type of the category trims to it.
   */
  lemma TypeOptionsSpec(catalogue: map<string, CatalogueItem>, byCategory: map<string, CategoryDefinitions>, category: string)
    ensures var r := TypeOptions(catalogue, byCategory, category);
      var ts := CandidateTypes(catalogue, byCategory, category);
      && (forall i :: 0 <= i < |r| ==> |r[i]| > 0 && Trim(r[i]) == r[i])
      && Distinct(r)
      && (forall i, j :: 0 <= i < j < |r| ==> LocaleLess(r[i], r[j]))
      && (forall x :: x in r <==> |x| > 0 && exists k :: 0 <= k < |ts| && Trim(ts[k]) == x)
  {
    var ts := CandidateTypes(catalogue, byCategory, category);
    Api.CleanListSpec(ts);
    forall x
      ensures x in Api.TrimAll(ts) <==> exists k :: 0 <= k < |ts| && Trim(ts[k]) == x
    {
      Api.TrimAllMembers(ts, x);
    }
  }

  // ---- the catalogue ----

  /** The key an item of the answer is filed under, when its trimmed label is not empty. */
  predicate Labelled(entry: Api.CategoryTypes, key: string) {
    Trim(entry.category) != "" && Key(Trim(entry.category)) == key
  }

  function ItemOf(entry: Api.CategoryTypes): CatalogueItem {
    CatalogueItem(Trim(entry.category), Api.CleanList(entry.types))
  }

  /** One item of the answer: skipped for a blank label, otherwise filed under its folded label. */
  function CatalogueStep(m: map<string, CatalogueItem>, entry: Api.CategoryTypes): map<string, CatalogueItem> {
    var name := Trim(entry.category);
    if name == "" then m else m[Key(name) := ItemOf(entry)]
  }

  function CatalogueOf(entries: seq<Api.CategoryTypes>): map<string, CatalogueItem>
    decreases |entries|
  {
    if |entries| == 0 then map[] else CatalogueStep(CatalogueOf(entries[..|entries| - 1]), entries[|entries| - 1])
  }

  /** The catalogue map filled by forEach in refreshCatalogue. */
  method BuildCatalogue(entries: seq<Api.CategoryTypes>) returns (m: map<string, CatalogueItem>)
    ensures m == CatalogueOf(entries)
  {
    m := map[];
    for i := 0 to |entries|
      invariant m == CatalogueOf(entries[..i])
    {
      assert entries[..i + 1][..i] == entries[..i];
      var name := Trim(entries[i].category);
      if name == "" {
        continue;
      }
      var key := Key(name);
      var types := Api.CleanList(entries[i].types);
      m := m[key := CatalogueItem(name, types)];
    }
    assert entries[..|entries|] == entries;
  }

  /** A key is in the catalogue exactly when some item with a non-blank label folds to it. */
  lemma {:induction false} CatalogueKeys(entries: seq<Api.CategoryTypes>, key: string)
    ensures key in CatalogueOf(entries) <==> exists i :: 0 <= i < |entries| && Labelled(entries[i], key)
    decreases |entries|
  {
    if |entries| > 0 {
      var init := entries[..|entries| - 1];
      CatalogueKeys(init, key);
      StepKeys(CatalogueOf(init), entries[|init|], key);
      assert forall i :: 0 <= i < |init| ==> init[i] == entries[i];
      assert (exists i :: 0 <= i < |entries| && Labelled(entries[i], key))
        <==> (exists i :: 0 <= i < |init| && Labelled(init[i], key)) || Labelled(entries[|init|], key);
    }
  }

  lemma StepKeys(m: map<string, CatalogueItem>, entry: Api.CategoryTypes, key: string)
    ensures key in CatalogueStep(m, entry) <==> key in m || Labelled(entry, key)
  {
  }

  /** A key holds the item of the last entry filed under it: later items replace earlier ones. */
  lemma {:induction false} CatalogueLastWins(entries: seq<Api.CategoryTypes>, i: int, key: string)
    requires 0 <= i < |entries| && Labelled(entries[i], key)
    requires forall j :: i < j < |entries| ==> !Labelled(entries[j], key)
    ensures key in CatalogueOf(entries) && CatalogueOf(entries)[key] == ItemOf(entries[i])
    decreases |entries|
  {
    var init := entries[..|entries| - 1];
    if i < |init| {
      assert init[i] == entries[i];
      forall j | i < j < |init|
        ensures !Labelled(init[j], key)
      {
        assert init[j] == entries[j];
      }
      CatalogueLastWins(init, i, key);
    }
  }

  /** Whatever a key holds is the item of some entry filed under it. */
  lemma {:induction false} CatalogueValueFrom(entries: seq<Api.CategoryTypes>, key: string)
    requires key in CatalogueOf(entries)
    ensures exists i :: 0 <= i < |entries| && Labelled(entries[i], key) && CatalogueOf(entries)[key] == ItemOf(entries[i])
    decreases |entries|
  {
    var init, last := entries[..|entries| - 1], entries[|entries| - 1];
    if Labelled(last, key) {
      assert CatalogueOf(entries)[key] == ItemOf(entries[|entries| - 1]);
    } else {
      CatalogueValueFrom(init, key);
      var i :| 0 <= i < |init| && Labelled(init[i], key) && CatalogueOf(init)[key] == ItemOf(init[i]);
      assert entries[i] == init[i];
    }
  }

  /**
   * Each catalogue item is filed under its own folded label, which is
   * trimmed and non-blank; its types are trimmed, non-empty, free of
   * repeats and strictly increasing.
   */
  lemma CatalogueItemsClean(entries: seq<Api.CategoryTypes>, key: string)
    requires key in CatalogueOf(entries)
    ensures var item := CatalogueOf(entries)[key];
      && item.labelText != "" && Trim(item.labelText) == item.labelText && Key(item.labelText) == key
      && (forall i :: 0 <= i < |item.types| ==> |item.types[i]| > 0 && Trim(item.types[i]) == item.types[i])
      && Distinct(item.types)
      && (forall i, j :: 0 <= i < j < |item.types| ==> LocaleLess(item.types[i], item.types[j]))
  {
    CatalogueValueFrom(entries, key);
    var i :| 0 <= i < |entries| && Labelled(entries[i], key) && CatalogueOf(entries)[key] == ItemOf(entries[i]);
    TrimIdempotent(entries[i].category);
    Api.CleanListSpec(entries[i].types);
  }

  // ---- submitting ----

  datatype Form = Form(date: string, category: string, entryType: string, selected: seq<string>,
                       status: Option<string>, error: Option<string>)

  /** How the save call ended: the message of a thrown Error, or None for anything else thrown. */
  datatype SaveOutcome = SaveSucceeded | SaveFailed(message: Option<string>)

  /** The form after submission, and the entry sent to the server if any. */
  datatype Submission = Submission(next: Form, request: Option<Api.Entry>)

  const CategoryRequired := "Category is required."
  const TypeRequired := "Type is required."
  const SelectionRequired := "Select at least one value for the entry."
  const SavedMessage := "Entry saved successfully."
  const SaveFallback := "Unable to save the entry."

  /** handleSubmit, with the outcome of the save call as a parameter. */
  function HandleSubmit(f: Form, outcome: SaveOutcome): Submission {
    var cleared := f.(status := None, error := None);
    var category, entryType := Trim(f.category), Trim(f.entryType);
    if category == "" then Submission(cleared.(error := Some(CategoryRequired)), None)
    else if entryType == "" then Submission(cleared.(error := Some(TypeRequired)), None)
    else if |f.selected| == 0 then Submission(cleared.(error := Some(SelectionRequired)), None)
    else
      var request := Some(Api.Entry(f.date, category, entryType, f.selected));
      match outcome
      case SaveSucceeded => Submission(cleared.(status := Some(SavedMessage), selected := []), request)
      case SaveFailed(message) => Submission(cleared.(error := Some(message.GetOr(SaveFallback))), request)
  }

  /**
   * An entry is sent exactly when the trimmed category and type are
   * non-blank and a value is selected; the guards are tried in that order.
   * The entry carries the trimmed names and the selection; a successful
   * save clears the selection, a failed one keeps it and reports an error.
   */
  lemma HandleSubmitSpec(f: Form, outcome: SaveOutcome)
    ensures var s := HandleSubmit(f, outcome);
      && (s.request.Some? <==> Trim(f.category) != "" && Trim(f.entryType) != "" && |f.selected| > 0)
      && (Trim(f.category) == "" ==> s.next.error == Some(CategoryRequired))
      && (Trim(f.category) != "" && Trim(f.entryType) == "" ==> s.next.error == Some(TypeRequired))
      && (s.request.None? ==> s.next.error.Some? && s.next.status.None? && s.next.selected == f.selected)
      && (s.request.Some? ==> s.request.value == Api.Entry(f.date, Trim(f.category), Trim(f.entryType), f.selected))
      && (s.request.Some? && outcome.SaveSucceeded? ==> s.next.selected == [] && s.next.status == Some(SavedMessage) && s.next.error.None?)
      && (s.request.Some? && outcome.SaveFailed? ==> s.next.selected == f.selected && s.next.error.Some? && s.next.status.None?)
      && s.next.date == f.date && s.next.category == f.category && s.next.entryType == f.entryType
  {
  }

  /** handleSelectCategory: nothing for the current category, otherwise the type and selection are reset. */
  function SelectCategory(f: Form, option: string): Form {
    if f.category == option then f else f.(category := option, entryType := "", selected := [])
  }

  /** Selecting a category makes it current; selecting it again changes nothing. */
  lemma SelectCategorySpec(f: Form, option: string)
    ensures var g := SelectCategory(f, option);
      && g.category == option
      && (f.category == option ==> g == f)
      && (f.category != option ==> g.entryType == "" && g.selected == [])
      && g.date == f.date && g.status == f.status && g.error == f.error
      && SelectCategory(g, option) == g
  {
  }
}
