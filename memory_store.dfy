/**
 * The in-memory table store: a map from table name to a list of rows,
 * each row a dictionary from column name to value.  Table and column
 * names are case-insensitive; values are normalised on the way in,
 * compared with per-column rules when filtering, and projected to a fixed
 * positional shape per table on the way out.
 *
 * Dictionaries are ordered association lists, because the order in which
 * a dictionary is enumerated decides which filter is tested first (and so
 * whether a later filter gets the chance to throw) and where an updated
 * column sits.  Exceptions are `Err` results carrying the fault.
 */
module Store {
  import opened Text
  import opened Wrappers
  import opened Ordering
  import Calendar

  /** The runtime values the store holds. */
  datatype Value =
    | Null
    | Str(s: string)
    | Bool(b: bool)
    | Int(i: int)
    | Day(day: nat)                     // DateOnly, as a day number
    | Instant(date: nat, ticks: nat)    // DateTime: a day number and the time of day
    | Guid(id: nat)
    | Strs(items: seq<string>)          // string[]
    | Items(values: seq<Value>)         // any other sequence of objects

  /** The exceptions the store's conversions can throw. */
  datatype Fault = FormatFault | InvalidCastFault | NullReferenceFault | IndexOutOfRangeFault

  datatype Result<T> = Ok(value: T) | Err(fault: Fault)

  /** A dictionary in enumeration order. */
  type Dict = seq<(string, Value)>

  const EntryData := "entry_data"
  const EntryDefinitions := "entry_definitions"
  const EntryValues := "entry_values"

  /** `tableName.Equals(literal, StringComparison.OrdinalIgnoreCase)` for a lower-case literal. */
  predicate IsTable(name: string, literal: string) {
    Fold(name) == literal
  }

  /** The two catalogue tables, whose rows carry a surrogate id. */
  predicate IsCatalogue(name: string) {
    IsTable(name, EntryDefinitions) || IsTable(name, EntryValues)
  }

  // ---- dictionaries ----

  function Keys(d: Dict): (r: seq<string>)
    ensures |r| == |d|
  {
    if |d| == 0 then [] else [d[0].0] + Keys(d[1..])
  }

  /** `TryGetValue`: the value stored under `k`. */
  function Lookup(d: Dict, k: string): (r: Option<Value>)
    ensures r.None? <==> k !in Keys(d)
    ensures r.Some? ==> (k, r.value) in d
  {
    if |d| == 0 then None
    else if d[0].0 == k then Some(d[0].1)
    else Lookup(d[1..], k)
  }

  /** `d[k] = v`: replaces the value of an existing key in place, or appends a new entry. */
  function Put(d: Dict, k: string, v: Value): (r: Dict)
    ensures Lookup(r, k) == Some(v)
    ensures forall k' :: k' != k ==> Lookup(r, k') == Lookup(d, k')
    ensures k in Keys(d) ==> Keys(r) == Keys(d)
    ensures k !in Keys(d) ==> r == d + [(k, v)]
  {
    if |d| == 0 then [(k, v)]
    else if d[0].0 == k then
      assert ([(k, v)] + d[1..])[1..] == d[1..];
      [(k, v)] + d[1..]
    else
      var rest := Put(d[1..], k, v);
      assert ([d[0]] + rest)[1..] == rest;
      assert k !in Keys(d[1..]) ==> d + [(k, v)] == [d[0]] + (d[1..] + [(k, v)]);
      [d[0]] + rest
  }

  /** Assigns every entry of `cols`, in order. */
  function PutAll(d: Dict, cols: Dict): Dict
    decreases |cols|
  {
    if |cols| == 0 then d else PutAll(Put(d, cols[0].0, cols[0].1), cols[1..])
  }

  predicate DistinctKeys(d: Dict) {
    forall i, j :: 0 <= i < j < |d| ==> d[i].0 != d[j].0
  }

  /** Every key is already in its case-folded form. */
  predicate FoldedKeys(d: Dict) {
    forall i :: 0 <= i < |d| ==> Fold(d[i].0) == d[i].0
  }

  predicate WellFormedRow(d: Dict) {
    DistinctKeys(d) && FoldedKeys(d)
  }

  lemma {:induction false} KeysIndex(d: Dict, k: string)
    ensures k in Keys(d) <==> exists i :: 0 <= i < |d| && d[i].0 == k
  {
    if |d| > 0 {
      KeysIndex(d[1..], k);
      if k in Keys(d[1..]) {
        var i :| 0 <= i < |d[1..]| && d[1..][i].0 == k;
        assert d[i + 1].0 == k;
      }
      if exists i :: 0 <= i < |d| && d[i].0 == k {
        var i :| 0 <= i < |d| && d[i].0 == k;
        if i > 0 {
          assert d[1..][i - 1].0 == k;
        }
      }
    }
  }

  lemma PutWellFormed(d: Dict, k: string, v: Value)
    requires WellFormedRow(d) && Fold(k) == k
    ensures WellFormedRow(Put(d, k, v))
  {
    if k in Keys(d) {
      PutKeepsKeys(d, k, v);
    } else {
      AppendWellFormed(d, k, v);
    }
  }

  /** Assigning an existing key leaves every position's key where it was. */
  lemma PutKeepsKeys(d: Dict, k: string, v: Value)
    requires WellFormedRow(d) && k in Keys(d)
    ensures WellFormedRow(Put(d, k, v))
  {
    var r := Put(d, k, v);
    PutLength(d, k, v);
    forall i | 0 <= i < |r|
      ensures r[i].0 == d[i].0
    {
      KeysAt(r, i);
      KeysAt(d, i);
    }
  }

  lemma AppendWellFormed(d: Dict, k: string, v: Value)
    requires WellFormedRow(d) && Fold(k) == k && k !in Keys(d)
    ensures WellFormedRow(d + [(k, v)])
  {
    KeysIndex(d, k);
  }

  lemma {:induction false} PutLength(d: Dict, k: string, v: Value)
    requires k in Keys(d)
    ensures |Put(d, k, v)| == |d|
  {
    assert |Keys(Put(d, k, v))| == |Keys(d)|;
  }

  lemma {:induction false} KeysAt(d: Dict, i: int)
    requires 0 <= i < |d|
    ensures Keys(d)[i] == d[i].0
  {
    if i > 0 {
      KeysAt(d[1..], i - 1);
    }
  }

  lemma {:induction false} PutAllWellFormed(d: Dict, cols: Dict)
    requires WellFormedRow(d) && FoldedKeys(cols)
    ensures WellFormedRow(PutAll(d, cols))
    decreases |cols|
  {
    if |cols| > 0 {
      PutWellFormed(d, cols[0].0, cols[0].1);
      PutAllWellFormed(Put(d, cols[0].0, cols[0].1), cols[1..]);
    }
  }

  /** After assigning a set of distinct columns, each listed column holds its new value and every other column is unchanged. */
  lemma {:induction false} PutAllLookup(d: Dict, cols: Dict, k: string)
    requires DistinctKeys(cols)
    ensures Lookup(PutAll(d, cols), k) == if k in Keys(cols) then Lookup(cols, k) else Lookup(d, k)
    decreases |cols|
  {
    if |cols| > 0 {
      var d' := Put(d, cols[0].0, cols[0].1);
      PutAllLookup(d', cols[1..], k);
      if k == cols[0].0 {
        KeysIndex(cols[1..], k);
      }
    }
  }

  /** With distinct keys, looking up the key at position i finds the value at position i. */
  lemma LookupAt(d: Dict, i: int)
    requires DistinctKeys(d) && 0 <= i < |d|
    ensures Lookup(d, d[i].0) == Some(d[i].1)
  {
    KeysIndex(d, d[i].0);
    var r := Lookup(d, d[i].0);
    var j :| 0 <= j < |d| && d[j] == (d[i].0, r.value);
    assert j == i;
  }

  /** A key no entry carries is not found. */
  lemma LookupAbsent(d: Dict, k: string)
    requires forall i :: 0 <= i < |d| ==> d[i].0 != k
    ensures Lookup(d, k) == None
  {
    KeysIndex(d, k);
  }

  // ---- value conversions ----

  /**
   * `Convert.ToBoolean(object)`: null is false, a number is true when
   * non-zero, text is `Boolean.Parse`d (surrounding blanks and letter case
   * ignored) and throws a format fault unless it says true or false; any
   * other value is not convertible.
   */
  function ToBoolean(v: Value): (r: Result<bool>)
    ensures v.Bool? ==> r == Ok(v.b)
    ensures v.Null? ==> r == Ok(false)
    ensures v.Int? ==> r == Ok(v.i != 0)
    ensures v.Str? ==> (r.Ok? <==> Key(v.s) == "true" || Key(v.s) == "false")
    ensures v.Str? && r.Ok? ==> (r.value <==> Key(v.s) == "true")
    ensures v.Str? && r.Err? ==> r.fault == FormatFault
    ensures r.Err? ==> !v.Bool? && !v.Int? && !v.Null?
    ensures !(v.Null? || v.Bool? || v.Int? || v.Str?) ==> r == Err(InvalidCastFault)
  {
    match v
    case Null => Ok(false)
    case Bool(b) => Ok(b)
    case Int(i) => Ok(i != 0)
    case Str(s) =>
      if Key(s) == "true" then Ok(true)
      else if Key(s) == "false" then Ok(false)
      else Err(FormatFault)
    case _ => Err(InvalidCastFault)
  }

  /** `ToString()`, with `null` read as the empty string. */
  function TextOf(v: Value): string {
    match v
    case Null => ""
    case Str(s) => s
    case Bool(b) => if b then "True" else "False"
    case Int(i) => IntToString(i)
    case Day(n) => Calendar.ToDateKey(n)
    case Instant(n, _) => Calendar.ToDateKey(n)
    case Guid(n) => NatToString(n)
    case Strs(_) => "System.String[]"
    case Items(_) => "System.Object[]"
  }

  /**
   * The calendar day of a value in the date column: a date, a date-time
   * truncated, or its text parsed as `DateOnly.Parse` does, which throws a
   * format fault on text that is not a date.
   */
  function DayOf(v: Value): (r: Result<nat>)
    ensures v.Day? ==> r == Ok(v.day)
    ensures v.Instant? ==> r == Ok(v.date)
    ensures v.Str? ==> (r.Ok? <==> Calendar.ParseIsoDate(v.s).Some?)
    ensures v.Str? && r.Ok? ==> Calendar.ParseIsoDate(v.s) == Some(r.value)
    ensures !(v.Day? || v.Instant? || v.Str?) ==> r == Err(FormatFault)
    ensures r.Err? ==> r.fault == FormatFault
  {
    match v
    case Day(n) => Ok(n)
    case Instant(n, _) => Ok(n)
    case Str(s) =>
      (match Calendar.ParseIsoDate(s)
       case Some(n) => Ok(n)
       case None => Err(FormatFault))
    case _ => Err(FormatFault)
  }

  predicate IsDateColumn(table: string, key: string) {
    IsTable(table, EntryData) && Fold(key) == "date"
  }

  /**
   * NormalizeValue: the value stored for column `key` of `table`.  The
   * entry date column holds the day of any value that has one and keeps
   * other values; the two flag columns hold the converted boolean, the
   * conversion being the only thing that can throw; a list of objects in
   * `values_list` becomes a string array of their texts; everything else
   * is kept as given.
   */
  function NormalizeValue(table: string, key: string, v: Value): (r: Result<Value>)
    ensures IsDateColumn(table, key) ==> r.Ok? && (DayOf(v).Ok? ==> r.value == Day(DayOf(v).value))
    ensures IsDateColumn(table, key) && DayOf(v).Err? ==> r == Ok(v)
    ensures Fold(key) == "allows_multiple" || Fold(key) == "is_notable" ==>
      && (r.Ok? <==> ToBoolean(v).Ok?)
      && (r.Ok? ==> r.value == Bool(ToBoolean(v).value))
      && (r.Err? ==> r.fault == ToBoolean(v).fault)
    ensures Fold(key) == "values_list" && v.Items? ==>
      && r.Ok? && r.value.Strs? && |r.value.items| == |v.values|
      && (forall i :: 0 <= i < |v.values| ==> r.value.items[i] == TextOf(v.values[i]))
    ensures Fold(key) == "values_list" && !v.Items? ==> r == Ok(v)
    ensures !IsDateColumn(table, key) && Fold(key) !in {"allows_multiple", "is_notable", "values_list"} ==> r == Ok(v)
    ensures r.Err? ==> (Fold(key) == "allows_multiple" || Fold(key) == "is_notable") && ToBoolean(v).Err?
  {
    var nk := Fold(key);
    if IsTable(table, EntryData) && nk == "date" then
      match v
      case Day(_) => Ok(v)
      case Instant(n, _) => Ok(Day(n))
      case Str(s) =>
        (match Calendar.ParseIsoDate(s)
         case Some(n) => Ok(Day(n))
         case None => Ok(v))
      case _ => Ok(v)
    else if nk == "allows_multiple" || nk == "is_notable" then
      match ToBoolean(v)
      case Ok(b) => Ok(Bool(b))
      case Err(f) => Err(f)
    else if nk == "values_list" && v.Items? then
      Ok(Strs(seq(|v.values|, i requires 0 <= i < |v.values| => TextOf(v.values[i]))))
    else
      Ok(v)
  }

  /** Normalises `kvs` in order into `acc`, folding keys; the first conversion that throws ends it. */
  function NormalizeInto(table: string, acc: Dict, kvs: seq<(string, Value)>): Result<Dict>
    decreases |kvs|
  {
    if |kvs| == 0 then Ok(acc)
    else
      match NormalizeValue(table, kvs[0].0, kvs[0].1)
      case Err(f) => Err(f)
      case Ok(v) => NormalizeInto(table, Put(acc, Fold(kvs[0].0), v), kvs[1..])
  }

  /** NormalizeFilters: a fresh case-insensitive dictionary of normalised values. */
  function Normalize(table: string, kvs: seq<(string, Value)>): Result<Dict> {
    NormalizeInto(table, [], kvs)
  }

  /** NormalizeRow: Normalize, plus a fresh `id` for the two catalogue tables when none was given. */
  function NormalizedRow(table: string, kvs: seq<(string, Value)>, newId: nat): Result<Dict> {
    match Normalize(table, kvs)
    case Err(f) => Err(f)
    case Ok(d) =>
      if IsCatalogue(table) && Lookup(d, "id").None?
      then Ok(Put(d, "id", Guid(newId)))
      else Ok(d)
  }

  // ---- comparison ----

  /** ValuesEqual: whether a stored value satisfies a filter value for column `key`. */
  function ValuesEqual(table: string, key: string, left: Value, right: Value): (r: Result<bool>)
    ensures left.Null? || right.Null? ==> r == Ok(left.Null? && right.Null?)
  {
    if left.Null? && right.Null? then Ok(true)
    else if left.Null? || right.Null? then Ok(false)
    else if IsDateColumn(table, key) then
      match DayOf(left)
      case Err(f) => Err(f)
      case Ok(l) =>
        match DayOf(right)
        case Err(f) => Err(f)
        case Ok(r) => Ok(l == r)
    else if left.Str? && right.Str? then Ok(Fold(left.s) == Fold(right.s))
    else if left.Guid? && right.Guid? then Ok(left.id == right.id)
    else if left.Bool? then
      match ToBoolean(right)
      case Err(f) => Err(f)
      case Ok(b) => Ok(left.b == b)
    else
      match (left, right)
      case (Int(a), Int(b)) => Ok(a == b)
      case (Day(a), Day(b)) => Ok(a == b)
      case (Instant(a, s), Instant(b, t)) => Ok(a == b && s == t)
      case _ => Ok(false)
  }

  /** MatchesFilters: every filter column is present in the row with an equal value, tested in filter order. */
  function Matches(table: string, row: Dict, filters: Dict): Result<bool>
    decreases |filters|
  {
    if |filters| == 0 then Ok(true)
    else
      match Lookup(row, filters[0].0)
      case None => Ok(false)
      case Some(rv) =>
        match ValuesEqual(table, filters[0].0, rv, filters[0].1)
        case Err(f) => Err(f)
        case Ok(eq) => if eq then Matches(table, row, filters[1..]) else Ok(false)
  }

  /** The filter at position i holds for `row`. */
  predicate FilterHolds(table: string, row: Dict, filters: Dict, i: int)
    requires 0 <= i < |filters|
  {
    Lookup(row, filters[i].0).Some?
    && ValuesEqual(table, filters[i].0, Lookup(row, filters[i].0).value, filters[i].1) == Ok(true)
  }

  /** A row matches exactly when every filter holds, so an empty filter set matches every row. */
  lemma {:induction false} MatchesAll(table: string, row: Dict, filters: Dict)
    ensures Matches(table, row, filters) == Ok(true)
            <==> forall i :: 0 <= i < |filters| ==> FilterHolds(table, row, filters, i)
    decreases |filters|
  {
    if |filters| > 0 {
      MatchesAll(table, row, filters[1..]);
      if Matches(table, row, filters) == Ok(true) {
        forall i | 0 <= i < |filters|
          ensures FilterHolds(table, row, filters, i)
        {
          if i > 0 {
            assert FilterHolds(table, row, filters[1..], i - 1);
          }
        }
      }
      if forall i :: 0 <= i < |filters| ==> FilterHolds(table, row, filters, i) {
        assert FilterHolds(table, row, filters, 0);
        forall i | 0 <= i < |filters[1..]|
          ensures FilterHolds(table, row, filters[1..], i)
        {
          assert FilterHolds(table, row, filters, i + 1);
        }
      }
    }
  }

  /** A filter list whose first filter can be tested goes on to the rest exactly when that filter holds. */
  lemma MatchesStep(table: string, row: Dict, filters: Dict)
    requires |filters| > 0 && Lookup(row, filters[0].0).Some?
    requires ValuesEqual(table, filters[0].0, Lookup(row, filters[0].0).value, filters[0].1).Ok?
    ensures Matches(table, row, filters)
            == if ValuesEqual(table, filters[0].0, Lookup(row, filters[0].0).value, filters[0].1).value
               then Matches(table, row, filters[1..]) else Ok(false)
  {
  }

  // ---- projection ----

  function ValueOr(v: Option<Value>, default: Value): Value {
    match v
    case Some(x) => if x.Null? then default else x
    case None => default
  }

  /**
   * MapRowToResult: the positional tuple a row is returned as.  `newId` is
   * the id given to a catalogue row that has none.
   */
  function Project(table: string, row: Dict, newId: nat): (r: seq<Value>)
    ensures IsTable(table, EntryData) || IsTable(table, EntryDefinitions) || IsTable(table, EntryValues) ==> |r| == 4
    ensures IsTable(table, EntryData) ==> r[3].Strs?
  {
    if IsTable(table, EntryData) then
      var date := match Lookup(row, "date")
                  case Some(Day(d)) => Instant(d, 0)
                  case Some(v) => v
                  case None => Null;
      var values := match Lookup(row, "values_list")
                    case Some(Strs(xs)) => Strs(xs)
                    case _ => Strs([]);
      [date, Lookup(row, "category").GetOr(Null), Lookup(row, "type").GetOr(Null), values]
    else if IsTable(table, EntryDefinitions) then
      [ValueOr(Lookup(row, "id"), Guid(newId)), Lookup(row, "type").GetOr(Null),
       Lookup(row, "category").GetOr(Null), ValueOr(Lookup(row, "allows_multiple"), Bool(false))]
    else if IsTable(table, EntryValues) then
      [ValueOr(Lookup(row, "id"), Guid(newId)), Lookup(row, "parent_type").GetOr(Null),
       Lookup(row, "value").GetOr(Null), ValueOr(Lookup(row, "is_notable"), Bool(false))]
    else
      [Items(seq(|row|, i requires 0 <= i < |row| => row[i].1))]
  }

  /** Projects each row; row i may use the fresh id `newId + i`. */
  function ProjectAll(table: string, rows: seq<Dict>, newId: nat): (r: seq<seq<Value>>)
    ensures |r| == |rows|
    ensures forall i :: 0 <= i < |rows| ==> r[i] == Project(table, rows[i], newId + i)
  {
    seq(|rows|, i requires 0 <= i < |rows| => Project(table, rows[i], newId + i))
  }

  // ---- whole-table operations ----

  /**
   * Splits rows into those that match and those that do not, both in table
   * order; rows are tested first to last and the first test that throws
   * ends it.
   */
  function Split(table: string, rows: seq<Dict>, filters: Dict): Result<(seq<Dict>, seq<Dict>)>
    decreases |rows|
  {
    if |rows| == 0 then Ok(([], []))
    else
      match Split(table, rows[..|rows| - 1], filters)
      case Err(f) => Err(f)
      case Ok(p) =>
        match Matches(table, rows[|rows| - 1], filters)
        case Err(f) => Err(f)
        case Ok(m) => Ok(if m then (p.0 + [rows[|rows| - 1]], p.1) else (p.0, p.1 + [rows[|rows| - 1]]))
  }

  /** The matching part holds only matching rows and the rest only non-matching ones. */
  lemma {:induction false} SplitSides(table: string, rows: seq<Dict>, filters: Dict)
    requires Split(table, rows, filters).Ok?
    ensures forall x :: x in Split(table, rows, filters).value.0 ==> Matches(table, x, filters) == Ok(true)
    ensures forall x :: x in Split(table, rows, filters).value.1 ==> Matches(table, x, filters) == Ok(false)
    decreases |rows|
  {
    if |rows| > 0 {
      SplitSides(table, rows[..|rows| - 1], filters);
    }
  }

  /** Both parts keep table order. */
  lemma {:induction false} SplitOrder(table: string, rows: seq<Dict>, filters: Dict)
    requires Split(table, rows, filters).Ok?
    ensures Subseq(Split(table, rows, filters).value.0, rows)
    ensures Subseq(Split(table, rows, filters).value.1, rows)
    decreases |rows|
  {
    if |rows| > 0 {
      var init := rows[..|rows| - 1];
      SplitOrder(table, init, filters);
      var q := Split(table, init, filters).value;
      var p := Split(table, rows, filters).value;
      if Matches(table, rows[|rows| - 1], filters) == Ok(true) {
        assert p.0[..|p.0| - 1] == q.0;
      } else {
        assert p.1[..|p.1| - 1] == q.1;
      }
    }
  }

  /** Together the parts hold every row exactly once. */
  lemma {:induction false} SplitCount(table: string, rows: seq<Dict>, filters: Dict)
    requires Split(table, rows, filters).Ok?
    ensures multiset(Split(table, rows, filters).value.0) + multiset(Split(table, rows, filters).value.1) == multiset(rows)
    ensures |Split(table, rows, filters).value.0| + |Split(table, rows, filters).value.1| == |rows|
    decreases |rows|
  {
    if |rows| > 0 {
      var init := rows[..|rows| - 1];
      SplitCount(table, init, filters);
      assert rows == init + [rows[|rows| - 1]];
    }
  }

  /**
   * The split is a partition: the matching part holds only matching rows,
   * the rest only non-matching ones, both keep table order, and together
   * they hold every row once.
   */
  lemma SplitPartition(table: string, rows: seq<Dict>, filters: Dict)
    requires Split(table, rows, filters).Ok?
    ensures var p := Split(table, rows, filters).value;
      && (forall x :: x in p.0 ==> Matches(table, x, filters) == Ok(true))
      && (forall x :: x in p.1 ==> Matches(table, x, filters) == Ok(false))
      && Subseq(p.0, rows) && Subseq(p.1, rows)
      && multiset(p.0) + multiset(p.1) == multiset(rows)
  {
    SplitSides(table, rows, filters);
    SplitOrder(table, rows, filters);
    SplitCount(table, rows, filters);
  }

  /** When every row's test is decided by `m` without throwing, the split is the filter by `m` and by its negation `n`. */
  lemma {:induction false} SplitDecided(table: string, rows: seq<Dict>, filters: Dict, m: Dict -> bool, n: Dict -> bool)
    requires forall x :: n(x) == !m(x)
    requires forall x :: x in rows ==> Matches(table, x, filters) == Ok(m(x))
    ensures Split(table, rows, filters) == Ok((Filter(rows, m), Filter(rows, n)))
    decreases |rows|
  {
    if |rows| > 0 {
      var init := rows[..|rows| - 1];
      assert forall x :: x in init ==> x in rows;
      SplitDecided(table, init, filters, m, n);
      var last := rows[|rows| - 1];
      assert last in rows;
      assert rows[..|rows| - 1] == init;
      assert n(last) == !m(last);
      if m(last) {
        assert Split(table, rows, filters) == Ok((Filter(init, m) + [last], Filter(init, n)));
        assert Filter(rows, m) == Filter(init, m) + [last];
        assert Filter(rows, n) == Filter(init, n) + [];
        assert Filter(init, n) + [] == Filter(init, n);
      } else {
        assert Split(table, rows, filters) == Ok((Filter(init, m), Filter(init, n) + [last]));
        assert Filter(rows, m) == Filter(init, m) + [];
        assert Filter(init, m) + [] == Filter(init, m);
        assert Filter(rows, n) == Filter(init, n) + [last];
      }
    }
  }

  /** The split succeeds exactly when no row's test throws. */
  lemma {:induction false} SplitOk(table: string, rows: seq<Dict>, filters: Dict)
    ensures Split(table, rows, filters).Ok? <==> forall i :: 0 <= i < |rows| ==> Matches(table, rows[i], filters).Ok?
    decreases |rows|
  {
    if |rows| > 0 {
      var init := rows[..|rows| - 1];
      SplitOk(table, init, filters);
      assert forall i :: 0 <= i < |init| ==> init[i] == rows[i];
    }
  }

  /** UpdateAsync on the rows of one table: the new rows, and the fault that stopped the walk, if any. */
  function UpdateRows(table: string, rows: seq<Dict>, cols: Dict, filters: Dict): (r: (seq<Dict>, Option<Fault>))
    ensures |r.0| == |rows|
    decreases |rows|
  {
    if |rows| == 0 then ([], None)
    else
      var prev := UpdateRows(table, rows[..|rows| - 1], cols, filters);
      var last := rows[|rows| - 1];
      if prev.1.Some? then (prev.0 + [last], prev.1)
      else
        match Matches(table, last, filters)
        case Err(f) => (prev.0 + [last], Some(f))
        case Ok(m) => (prev.0 + [if m then PutAll(last, cols) else last], None)
  }

  /**
   * The row walk of UpdateAsync: rows are visited in order; a filter test
   * that throws stops the assignments, the rows from there on kept as they were.
   */
  method UpdateTableRows(table: string, rows: seq<Dict>, cols: Dict, filters: Dict) returns (updated: seq<Dict>, fault: Option<Fault>)
    requires forall row :: row in rows ==> WellFormedRow(row)
    requires FoldedKeys(cols)
    ensures (updated, fault) == UpdateRows(table, rows, cols, filters)
    ensures forall row :: row in updated ==> WellFormedRow(row)
  {
    updated := [];
    fault := None;
    var i := 0;
    while i < |rows|
      invariant 0 <= i <= |rows|
      invariant UpdateRows(table, rows[..i], cols, filters) == (updated, fault)
      invariant forall row :: row in updated ==> WellFormedRow(row)
    {
      assert rows[..i + 1][..i] == rows[..i];
      assert WellFormedRow(rows[i]);
      if fault.Some? {
        updated := updated + [rows[i]];
      } else {
        var m := MatchesFilters(table, rows[i], filters);
        if m.Err? {
          fault := Some(m.fault);
          updated := updated + [rows[i]];
        } else if m.value {
          PutAllWellFormed(rows[i], cols);
          updated := updated + [PutAll(rows[i], cols)];
        } else {
          updated := updated + [rows[i]];
        }
      }
      i := i + 1;
    }
    assert rows[..i] == rows;
  }

  /**
   * Every row is either left as it was or is a matching row with the
   * columns assigned; when no test throws, exactly the matching rows are
   * assigned.
   */
  lemma UpdateRowsSpec(table: string, rows: seq<Dict>, cols: Dict, filters: Dict)
    ensures var r := UpdateRows(table, rows, cols, filters);
      forall i :: 0 <= i < |rows| ==>
        && (r.0[i] == rows[i] || (Matches(table, rows[i], filters) == Ok(true) && r.0[i] == PutAll(rows[i], cols)))
        && (r.1.None? ==> r.0[i] == if Matches(table, rows[i], filters) == Ok(true) then PutAll(rows[i], cols) else rows[i])
    ensures UpdateRows(table, rows, cols, filters).1.None? <==> forall i :: 0 <= i < |rows| ==> Matches(table, rows[i], filters).Ok?
  {
    forall i | 0 <= i < |rows|
      ensures var r := UpdateRows(table, rows, cols, filters);
        && (r.0[i] == rows[i] || (Matches(table, rows[i], filters) == Ok(true) && r.0[i] == PutAll(rows[i], cols)))
        && (r.1.None? ==> r.0[i] == if Matches(table, rows[i], filters) == Ok(true) then PutAll(rows[i], cols) else rows[i])
    {
      UpdateRowsAt(table, rows, cols, filters, i);
    }
    UpdateRowsFault(table, rows, cols, filters);
  }

  /** Row i is kept or, having matched, assigned; with no fault it is assigned exactly when it matches. */
  lemma {:induction false} UpdateRowsAt(table: string, rows: seq<Dict>, cols: Dict, filters: Dict, i: int)
    requires 0 <= i < |rows|
    ensures var r := UpdateRows(table, rows, cols, filters);
      && (r.0[i] == rows[i] || (Matches(table, rows[i], filters) == Ok(true) && r.0[i] == PutAll(rows[i], cols)))
      && (r.1.None? ==> r.0[i] == if Matches(table, rows[i], filters) == Ok(true) then PutAll(rows[i], cols) else rows[i])
    decreases |rows|
  {
    var init := rows[..|rows| - 1];
    UpdateRowsStep(table, rows, cols, filters);
    if i < |init| {
      UpdateRowsAt(table, init, cols, filters, i);
      assert init[i] == rows[i];
    }
  }

  /** One more row extends the walk's rows by one and can only add a fault. */
  lemma UpdateRowsStep(table: string, rows: seq<Dict>, cols: Dict, filters: Dict)
    requires |rows| > 0
    ensures var r, prev := UpdateRows(table, rows, cols, filters), UpdateRows(table, rows[..|rows| - 1], cols, filters);
      && r.0[..|rows| - 1] == prev.0
      && (r.1.None? ==> prev.1.None?)
      && (prev.1.Some? ==> r.0[|rows| - 1] == rows[|rows| - 1])
      && (prev.1.None? ==> r.0[|rows| - 1] == if Matches(table, rows[|rows| - 1], filters) == Ok(true) then PutAll(rows[|rows| - 1], cols) else rows[|rows| - 1])
      && (prev.1.None? && Matches(table, rows[|rows| - 1], filters).Err? ==> r.1.Some?)
  {
    var prev := UpdateRows(table, rows[..|rows| - 1], cols, filters);
    assert (prev.0 + [rows[|rows| - 1]])[..|rows| - 1] == prev.0;
    assert forall x :: (prev.0 + [x])[..|rows| - 1] == prev.0;
  }

  /** The walk ends without a fault exactly when no row's test throws. */
  lemma {:induction false} UpdateRowsFault(table: string, rows: seq<Dict>, cols: Dict, filters: Dict)
    ensures UpdateRows(table, rows, cols, filters).1.None? <==> forall i :: 0 <= i < |rows| ==> Matches(table, rows[i], filters).Ok?
    decreases |rows|
  {
    if |rows| > 0 {
      var init := rows[..|rows| - 1];
      UpdateRowsFault(table, init, cols, filters);
      assert forall i :: 0 <= i < |init| ==> init[i] == rows[i];
    }
  }

  /** The table a Get returns: the matching rows projected in table order. */
  function Query(table: string, rows: seq<Dict>, filters: seq<(string, Value)>, newId: nat): Result<seq<seq<Value>>> {
    match Normalize(table, filters)
    case Err(f) => Err(f)
    case Ok(nf) =>
      match Split(table, rows, nf)
      case Err(f) => Err(f)
      case Ok(p) => Ok(ProjectAll(table, p.0, newId))
  }

  /** The table a Remove leaves: the rows that do not match, in table order. */
  function Removed(table: string, rows: seq<Dict>, filters: seq<(string, Value)>): Result<seq<Dict>> {
    match Normalize(table, filters)
    case Err(f) => Err(f)
    case Ok(nf) =>
      match Split(table, rows, nf)
      case Err(f) => Err(f)
      case Ok(p) => Ok(p.1)
  }

  /**
   * The walk of `RemoveAll`: rows are tested first to last; the rows kept so
   * far, and the fault of the first test that throws, after which no row
   * is tested.
   */
  function KeptRows(table: string, rows: seq<Dict>, filters: Dict): (r: (seq<Dict>, Option<Fault>))
    ensures |r.0| <= |rows|
    ensures forall x :: x in r.0 ==> x in rows
    decreases |rows|
  {
    if |rows| == 0 then ([], None)
    else
      var prev := KeptRows(table, rows[..|rows| - 1], filters);
      var last := rows[|rows| - 1];
      if prev.1.Some? then prev
      else
        match Matches(table, last, filters)
        case Err(f) => (prev.0, Some(f))
        case Ok(m) => (if m then prev.0 else prev.0 + [last], None)
  }

  /**
   * The list `RemoveAll` leaves, and the fault it threw, if any.  Kept rows
   * are moved down over removed ones while the walk goes and the list is
   * cut to them at the end, so a throw leaves the rows kept so far
   * followed by the original rows from that position on.
   */
  function RemoveAllRows(table: string, rows: seq<Dict>, filters: Dict): (r: (seq<Dict>, Option<Fault>))
    ensures forall x :: x in r.0 ==> x in rows
  {
    var k := KeptRows(table, rows, filters);
    if k.1.None? then k else (k.0 + rows[|k.0|..], k.1)
  }

  /** Without a throw the walk keeps exactly the rows the split puts aside. */
  lemma {:induction false} KeptRowsOk(table: string, rows: seq<Dict>, filters: Dict)
    ensures KeptRows(table, rows, filters).1.None? <==> Split(table, rows, filters).Ok?
    ensures Split(table, rows, filters).Ok? ==> KeptRows(table, rows, filters).0 == Split(table, rows, filters).value.1
    decreases |rows|
  {
    if |rows| > 0 {
      KeptRowsOk(table, rows[..|rows| - 1], filters);
    }
  }

  /** Once a prefix of the walk has thrown, the rest of the rows change nothing. */
  lemma {:induction false} KeptRowsPersist(table: string, rows: seq<Dict>, filters: Dict, k: int)
    requires 0 <= k <= |rows| && KeptRows(table, rows[..k], filters).1.Some?
    ensures KeptRows(table, rows, filters) == KeptRows(table, rows[..k], filters)
    decreases |rows| - k
  {
    if k < |rows| {
      assert rows[..k + 1][..k] == rows[..k];
      KeptRowsPersist(table, rows, filters, k + 1);
    } else {
      assert rows[..k] == rows;
    }
  }

  /**
   * RemoveAll's outcome: without a throw, exactly the non-matching rows
   * remain, in order; when the test of row k is the first to throw, the
   * non-matching rows before k have been moved to the front and the rest of
   * the list is as it was, the length unchanged.
   */
  lemma RemoveAllSpec(table: string, rows: seq<Dict>, filters: Dict)
    ensures var w := RemoveAllRows(table, rows, filters);
      && (w.1.None? <==> forall i :: 0 <= i < |rows| ==> Matches(table, rows[i], filters).Ok?)
      && (Split(table, rows, filters).Ok? ==> w == (Split(table, rows, filters).value.1, None))
    ensures forall k :: 0 <= k < |rows| && Split(table, rows[..k], filters).Ok? && Matches(table, rows[k], filters).Err? ==>
      var kept := Split(table, rows[..k], filters).value.1;
      && |kept| <= k
      && RemoveAllRows(table, rows, filters) == (kept + rows[|kept|..], Some(Matches(table, rows[k], filters).fault))
  {
    KeptRowsOk(table, rows, filters);
    SplitOk(table, rows, filters);
    forall k | 0 <= k < |rows| && Split(table, rows[..k], filters).Ok? && Matches(table, rows[k], filters).Err?
      ensures var kept := Split(table, rows[..k], filters).value.1;
        && |kept| <= k
        && RemoveAllRows(table, rows, filters) == (kept + rows[|kept|..], Some(Matches(table, rows[k], filters).fault))
    {
      RemoveAllFault(table, rows, filters, k);
    }
  }

  /** A first throw at row k leaves the rows kept before k, then the list from that length on. */
  lemma RemoveAllFault(table: string, rows: seq<Dict>, filters: Dict, k: int)
    requires 0 <= k < |rows| && Split(table, rows[..k], filters).Ok? && Matches(table, rows[k], filters).Err?
    ensures var kept := Split(table, rows[..k], filters).value.1;
      && |kept| <= k
      && RemoveAllRows(table, rows, filters) == (kept + rows[|kept|..], Some(Matches(table, rows[k], filters).fault))
  {
    KeptRowsOk(table, rows[..k], filters);
    SplitCount(table, rows[..k], filters);
    assert rows[..k + 1][..k] == rows[..k];
    KeptRowsPersist(table, rows, filters, k + 1);
  }

  /**
   * Nothing is removed from a table none of whose rows before the first
   * throwing one matches.
   */
  lemma RemoveAllUnchanged(table: string, rows: seq<Dict>, filters: Dict, k: int)
    requires 0 <= k < |rows| && Matches(table, rows[k], filters).Err?
    requires forall i :: 0 <= i < k ==> Matches(table, rows[i], filters) == Ok(false)
    ensures RemoveAllRows(table, rows, filters) == (rows, Some(Matches(table, rows[k], filters).fault))
  {
    KeptUnmatched(table, rows, filters, k);
    KeptStep(table, rows, filters, k);
    KeptRowsPersist(table, rows, filters, k + 1);
    assert rows[..k] + rows[k..] == rows;
  }

  /** A prefix none of whose rows matches is kept whole. */
  lemma {:induction false} KeptUnmatched(table: string, rows: seq<Dict>, filters: Dict, k: int)
    requires 0 <= k <= |rows|
    requires forall i :: 0 <= i < k ==> Matches(table, rows[i], filters) == Ok(false)
    ensures KeptRows(table, rows[..k], filters) == (rows[..k], None)
    decreases k
  {
    if k > 0 {
      KeptUnmatched(table, rows, filters, k - 1);
      KeptStep(table, rows, filters, k - 1);
      assert Matches(table, rows[k - 1], filters) == Ok(false);
      assert rows[..k - 1] + [rows[k - 1]] == rows[..k];
    }
  }

  /** One more row of the walk, after a prefix that has not thrown. */
  lemma KeptStep(table: string, rows: seq<Dict>, filters: Dict, i: int)
    requires 0 <= i < |rows| && KeptRows(table, rows[..i], filters).1.None?
    ensures var prev := KeptRows(table, rows[..i], filters).0;
      KeptRows(table, rows[..i + 1], filters)
      == match Matches(table, rows[i], filters)
         case Err(f) => (prev, Some(f))
         case Ok(m) => (if m then prev else prev + [rows[i]], None)
  {
    assert rows[..i + 1][..i] == rows[..i];
  }

  /** Copying row i into the first free slot extends the compacted front and keeps the rest as it was. */
  lemma CompactStep(items: seq<Dict>, rows: seq<Dict>, free: int, i: int)
    requires 0 <= free <= i < |rows| && |items| == |rows| && items[free..] == rows[free..]
    ensures items[i] == rows[i]
    ensures var next := items[free := rows[i]];
      next[..free + 1] == items[..free] + [rows[i]] && next[free + 1..] == rows[free + 1..]
  {
    assert items[i] == items[free..][i - free];
    var next := items[free := rows[i]];
    assert next[free + 1..] == items[free..][1..];
  }

  /**
   * The in-place walk of `RemoveAll`: each kept row is copied into the
   * first free slot; at the end the list is cut to the kept rows, and a
   * throw leaves the list as far as it has been compacted.
   */
  method RemoveAllInPlace(table: string, rows: seq<Dict>, filters: Dict) returns (left: seq<Dict>, fault: Option<Fault>)
    ensures (left, fault) == RemoveAllRows(table, rows, filters)
  {
    var items := rows;
    var free := 0;
    var i := 0;
    while i < |rows|
      invariant 0 <= free <= i <= |rows| && |items| == |rows|
      invariant KeptRows(table, rows[..i], filters) == (items[..free], None)
      invariant items[free..] == rows[free..]
    {
      CompactStep(items, rows, free, i);
      KeptStep(table, rows, filters, i);
      var m := MatchesFilters(table, items[i], filters);
      if m.Err? {
        KeptRowsPersist(table, rows, filters, i + 1);
        assert items == items[..free] + items[free..];
        return items, Some(m.fault);
      }
      if !m.value {
        items := items[free := items[i]];
        free := free + 1;
      }
      i := i + 1;
    }
    assert rows[..i] == rows;
    return items[..free], None;
  }

  // ---- the store ----

  /** The loop of NormalizeFilters and NormalizeRow, filling a fresh dictionary. */
  method NormalizeFilters(table: string, kvs: seq<(string, Value)>) returns (r: Result<Dict>)
    ensures r == Normalize(table, kvs)
  {
    var acc: Dict := [];
    var i := 0;
    while i < |kvs|
      invariant 0 <= i <= |kvs|
      invariant Normalize(table, kvs) == NormalizeInto(table, acc, kvs[i..])
    {
      var v := NormalizeValue(table, kvs[i].0, kvs[i].1);
      if v.Err? {
        return Err(v.fault);
      }
      acc := Put(acc, Fold(kvs[i].0), v.value);
      i := i + 1;
    }
    return Ok(acc);
  }

  method NormalizeRow(table: string, kvs: seq<(string, Value)>, newId: nat) returns (r: Result<Dict>)
    ensures r == NormalizedRow(table, kvs, newId)
  {
    r := NormalizeFilters(table, kvs);
    if r.Ok? && IsCatalogue(table) && Lookup(r.value, "id").None? {
      r := Ok(Put(r.value, "id", Guid(newId)));
    }
  }

  /** The loop of MatchesFilters, returning at the first filter that fails. */
  method MatchesFilters(table: string, row: Dict, filters: Dict) returns (r: Result<bool>)
    ensures r == Matches(table, row, filters)
  {
    var i := 0;
    while i < |filters|
      invariant 0 <= i <= |filters|
      invariant Matches(table, row, filters) == Matches(table, row, filters[i..])
    {
      var rv := Lookup(row, filters[i].0);
      if rv.None? {
        return Ok(false);
      }
      var eq := ValuesEqual(table, filters[i].0, rv.value, filters[i].1);
      if eq.Err? {
        return Err(eq.fault);
      }
      if !eq.value {
        return Ok(false);
      }
      assert filters[i..][1..] == filters[i + 1..];
      i := i + 1;
    }
    return Ok(true);
  }

  /** Tests every row in order, as `Where(...).ToList()` and `RemoveAll` do. */
  method SplitRows(table: string, rows: seq<Dict>, filters: Dict) returns (r: Result<(seq<Dict>, seq<Dict>)>)
    ensures r == Split(table, rows, filters)
  {
    var matching, rest := [], [];
    var i := 0;
    while i < |rows|
      invariant 0 <= i <= |rows|
      invariant Split(table, rows[..i], filters) == Ok((matching, rest))
    {
      var m := MatchesFilters(table, rows[i], filters);
      assert rows[..i + 1][..i] == rows[..i];
      if m.Err? {
        assert rows[..i + 1] == rows[..i] + [rows[i]];
        SplitErrPersists(table, rows, filters, i + 1);
        return Err(m.fault);
      }
      if m.value {
        matching := matching + [rows[i]];
      } else {
        rest := rest + [rows[i]];
      }
      i := i + 1;
    }
    assert rows[..i] == rows;
    return Ok((matching, rest));
  }

  /** Once a prefix of the rows throws, the whole walk throws the same fault. */
  lemma {:induction false} SplitErrPersists(table: string, rows: seq<Dict>, filters: Dict, k: int)
    requires 0 <= k <= |rows| && Split(table, rows[..k], filters).Err?
    ensures Split(table, rows, filters) == Split(table, rows[..k], filters)
    decreases |rows| - k
  {
    if k < |rows| {
      assert rows[..k + 1][..k] == rows[..k];
      SplitErrPersists(table, rows, filters, k + 1);
    } else {
      assert rows[..k] == rows;
    }
  }

  /** Every table is filed under its case-folded name and every row holds each folded column name once. */
  ghost predicate ValidTables(tables: map<string, seq<Dict>>) {
    forall t :: t in tables ==> Fold(t) == t && forall row :: row in tables[t] ==> WellFormedRow(row)
  }

  lemma SetTableValid(tables: map<string, seq<Dict>>, t: string, rows: seq<Dict>)
    requires ValidTables(tables) && Fold(t) == t && forall row :: row in rows ==> WellFormedRow(row)
    ensures ValidTables(tables[t := rows])
  {
  }

  lemma AppendRowValid(tables: map<string, seq<Dict>>, t: string, row: Dict)
    requires ValidTables(tables) && t in tables && WellFormedRow(row)
    ensures ValidTables(tables[t := tables[t] + [row]])
  {
  }

  /** Filing a table twice under one name keeps the second. */
  lemma Reassign(m: map<string, seq<Dict>>, t: string, a: seq<Dict>, b: seq<Dict>)
    ensures m[t := a][t := b] == m[t := b]
  {
  }

  class MemoryStore {
    /** Row lists by case-folded table name. */
    var tables: map<string, seq<Dict>>
    /** The next fresh identifier (stands in for `Guid.NewGuid()`). */
    var nextGuid: nat

    ghost predicate Valid()
      reads this
    {
      ValidTables(tables)
    }

    constructor()
      ensures Valid() && tables == map[] && nextGuid == 0
    {
      tables := map[];
      nextGuid := 0;
    }

    /** The rows of a table, matched case-insensitively; a table never touched is empty. */
    function Table(name: string): seq<Dict>
      reads this
    {
      if Fold(name) in tables then tables[Fold(name)] else []
    }

    /** GetOrCreateTable: the table's rows, registering an empty table the first time. */
    method GetOrCreateTable(name: string) returns (rows: seq<Dict>)
      requires Valid()
      modifies this
      ensures Valid()
      ensures tables == old(tables)[Fold(name) := old(Table(name))]
      ensures rows == Table(name) == old(Table(name)) && nextGuid == old(nextGuid)
      ensures forall n :: Table(n) == old(Table(n))
    {
      FoldIdempotent(name);
      if Fold(name) !in tables {
        tables := tables[Fold(name) := []];
      }
      rows := tables[Fold(name)];
    }

    /** AddAsync: appends one normalised row at the end of the table. */
    method Add(name: string, columns: seq<(string, Value)>) returns (r: Result<()>)
      requires Valid()
      modifies this
      ensures Valid()
      ensures nextGuid == old(nextGuid) + 1
      ensures match NormalizedRow(name, columns, old(nextGuid))
        case Ok(row) => r.Ok? && tables == old(tables)[Fold(name) := old(Table(name)) + [row]]
        case Err(f) => r == Err(f) && tables == old(tables)[Fold(name) := old(Table(name))]
    {
      var rows := GetOrCreateTable(name);
      var row := NormalizeRow(name, columns, nextGuid);
      nextGuid := nextGuid + 1;
      if row.Err? {
        return Err(row.fault);
      }
      NormalizedRowWellFormed(name, columns, old(nextGuid));
      FoldIdempotent(name);
      AppendRowValid(tables, Fold(name), row.value);
      Reassign(old(tables), Fold(name), old(Table(name)), rows + [row.value]);
      tables := tables[Fold(name) := rows + [row.value]];
      return Ok(());
    }

    /**
     * RemoveAsync: keeps exactly the rows that do not match, in their
     * order.  A filter that throws while normalising leaves the rows as
     * they were; a row test that throws leaves the list as far as
     * `RemoveAll` had compacted it.
     */
    method Remove(name: string, filters: seq<(string, Value)>) returns (r: Result<()>)
      requires Valid()
      modifies this
      ensures Valid() && nextGuid == old(nextGuid)
      ensures match Normalize(name, filters)
        case Err(f) => r == Err(f) && tables == old(tables)[Fold(name) := old(Table(name))]
        case Ok(nf) =>
          var w := RemoveAllRows(name, old(Table(name)), nf);
          tables == old(tables)[Fold(name) := w.0]
          && (match w.1 case None => r.Ok? case Some(f) => r == Err(f))
      ensures Removed(name, old(Table(name)), filters).Ok? ==>
        r.Ok? && tables == old(tables)[Fold(name) := Removed(name, old(Table(name)), filters).value]
    {
      var rows := GetOrCreateTable(name);
      var nf := NormalizeFilters(name, filters);
      if nf.Err? {
        return Err(nf.fault);
      }
      var left, fault := RemoveAllInPlace(name, rows, nf.value);
      KeptRowsOk(name, rows, nf.value);
      FoldIdempotent(name);
      SetTableValid(tables, Fold(name), left);
      Reassign(old(tables), Fold(name), old(Table(name)), left);
      tables := tables[Fold(name) := left];
      r := if fault.Some? then Err(fault.value) else Ok(());
    }

    /** GetAsync: the matching rows, projected, in table order. */
    method Get(name: string, filters: seq<(string, Value)>) returns (r: Result<seq<seq<Value>>>)
      requires Valid()
      modifies this
      ensures Valid()
      ensures tables == old(tables)[Fold(name) := old(Table(name))]
      ensures forall n :: Table(n) == old(Table(n))
      ensures r == Query(name, old(Table(name)), filters, old(nextGuid))
      ensures nextGuid == old(nextGuid) + (if r.Ok? then |r.value| else 0)
    {
      var rows := GetOrCreateTable(name);
      var nf := NormalizeFilters(name, filters);
      if nf.Err? {
        return Err(nf.fault);
      }
      var p := SplitRows(name, rows, nf.value);
      if p.Err? {
        return Err(p.fault);
      }
      r := Ok(ProjectAll(name, p.value.0, nextGuid));
      nextGuid := nextGuid + |p.value.0|;
    }

    /**
     * UpdateAsync: assigns the listed columns of every matching row.  Rows
     * are visited in order; a filter test that throws stops the walk with
     * the rows before it already updated.
     */
    method Update(name: string, columns: seq<(string, Value)>, filters: seq<(string, Value)>) returns (r: Result<()>)
      requires Valid()
      modifies this
      ensures Valid() && nextGuid == old(nextGuid)
      ensures match Normalize(name, filters)
        case Err(f) => r == Err(f) && tables == old(tables)[Fold(name) := old(Table(name))]
        case Ok(nf) =>
          match Normalize(name, columns)
          case Err(f) => r == Err(f) && tables == old(tables)[Fold(name) := old(Table(name))]
          case Ok(nc) =>
            var u := UpdateRows(name, old(Table(name)), nc, nf);
            tables == old(tables)[Fold(name) := u.0]
            && (match u.1 case None => r.Ok? case Some(f) => r == Err(f))
    {
      var rows := GetOrCreateTable(name);
      var nf := NormalizeFilters(name, filters);
      if nf.Err? {
        return Err(nf.fault);
      }
      var nc := NormalizeFilters(name, columns);
      if nc.Err? {
        return Err(nc.fault);
      }
      NormalizeWellFormed(name, columns);
      FoldIdempotent(name);
      var updated, fault := UpdateTableRows(name, rows, nc.value, nf.value);
      SetTableValid(tables, Fold(name), updated);
      Reassign(old(tables), Fold(name), old(Table(name)), updated);
      tables := tables[Fold(name) := updated];
      r := if fault.Some? then Err(fault.value) else Ok(());
    }

    /** GetAllAsync: every row, projected, in table order. */
    method GetAll(name: string) returns (r: seq<seq<Value>>)
      requires Valid()
      modifies this
      ensures Valid()
      ensures tables == old(tables)[Fold(name) := old(Table(name))]
      ensures forall n :: Table(n) == old(Table(n))
      ensures r == ProjectAll(name, old(Table(name)), old(nextGuid))
      ensures nextGuid == old(nextGuid) + |r|
    {
      var rows := GetOrCreateTable(name);
      r := ProjectAll(name, rows, nextGuid);
      nextGuid := nextGuid + |rows|;
    }
  }

  // ---- lemmas ----

  /** The table and column names the repository uses are already lower case. */
  lemma FoldNames()
    ensures Fold(EntryData) == EntryData && Fold(EntryDefinitions) == EntryDefinitions && Fold(EntryValues) == EntryValues
    ensures Fold("date") == "date" && Fold("category") == "category" && Fold("type") == "type"
    ensures Fold("values_list") == "values_list" && Fold("allows_multiple") == "allows_multiple"
    ensures Fold("parent_type") == "parent_type" && Fold("value") == "value" && Fold("is_notable") == "is_notable"
    ensures Fold("id") == "id"
  {
  }

  /** Neither catalogue table has a date column. */
  lemma CataloguesHaveNoDate()
    ensures !IsTable(EntryDefinitions, EntryData) && !IsTable(EntryValues, EntryData)
  {
    FoldNames();
  }

  /** Normalising folded, distinct keys whose values are already normal appends them unchanged. */
  lemma {:induction false} NormalizeIntoUnchanged(table: string, acc: Dict, kvs: Dict)
    requires DistinctKeys(acc + kvs) && FoldedKeys(kvs)
    requires forall i :: 0 <= i < |kvs| ==> NormalizeValue(table, kvs[i].0, kvs[i].1) == Ok(kvs[i].1)
    ensures NormalizeInto(table, acc, kvs) == Ok(acc + kvs)
    decreases |kvs|
  {
    if |kvs| > 0 {
      PutFresh(acc, kvs);
      assert NormalizeValue(table, kvs[0].0, kvs[0].1) == Ok(kvs[0].1);
      assert Fold(kvs[0].0) == kvs[0].0;
      NormalizeIntoUnchanged(table, acc + [kvs[0]], kvs[1..]);
    } else {
      assert acc + kvs == acc;
    }
  }

  /** The first of a run of keys distinct from those before it is appended by `Put`. */
  lemma PutFresh(acc: Dict, kvs: Dict)
    requires |kvs| > 0 && DistinctKeys(acc + kvs)
    ensures Put(acc, kvs[0].0, kvs[0].1) == acc + [kvs[0]]
    ensures acc + [kvs[0]] + kvs[1..] == acc + kvs
  {
    assert (acc + kvs)[|acc|] == kvs[0];
    forall i | 0 <= i < |acc|
      ensures acc[i].0 != kvs[0].0
    {
      assert (acc + kvs)[i] == acc[i];
    }
    KeysIndex(acc, kvs[0].0);
    assert acc + [kvs[0]] + kvs[1..] == acc + kvs;
  }

  /** A dictionary of folded, distinct keys and already normal values normalises to itself. */
  lemma NormalizeUnchanged(table: string, kvs: Dict)
    requires DistinctKeys(kvs) && FoldedKeys(kvs)
    requires forall i :: 0 <= i < |kvs| ==> NormalizeValue(table, kvs[i].0, kvs[i].1) == Ok(kvs[i].1)
    ensures Normalize(table, kvs) == Ok(kvs)
  {
    assert [] + kvs == kvs;
    NormalizeIntoUnchanged(table, [], kvs);
  }

  lemma {:induction false} NormalizeIntoWellFormed(table: string, acc: Dict, kvs: seq<(string, Value)>)
    requires WellFormedRow(acc)
    ensures NormalizeInto(table, acc, kvs).Ok? ==> WellFormedRow(NormalizeInto(table, acc, kvs).value)
    decreases |kvs|
  {
    if |kvs| > 0 && NormalizeValue(table, kvs[0].0, kvs[0].1).Ok? {
      FoldIdempotent(kvs[0].0);
      PutWellFormed(acc, Fold(kvs[0].0), NormalizeValue(table, kvs[0].0, kvs[0].1).value);
      NormalizeIntoWellFormed(table, Put(acc, Fold(kvs[0].0), NormalizeValue(table, kvs[0].0, kvs[0].1).value), kvs[1..]);
    }
  }

  /** Normalised dictionaries hold each lower-cased column name once. */
  lemma NormalizeWellFormed(table: string, kvs: seq<(string, Value)>)
    ensures Normalize(table, kvs).Ok? ==> WellFormedRow(Normalize(table, kvs).value)
  {
    NormalizeIntoWellFormed(table, [], kvs);
  }

  lemma NormalizedRowWellFormed(table: string, kvs: seq<(string, Value)>, newId: nat)
    ensures NormalizedRow(table, kvs, newId).Ok? ==> WellFormedRow(NormalizedRow(table, kvs, newId).value)
  {
    NormalizeWellFormed(table, kvs);
    if Normalize(table, kvs).Ok? {
      PutWellFormed(Normalize(table, kvs).value, "id", Guid(newId));
    }
  }

  /** Column and table names differing only in case normalise to the same dictionary. */
  lemma {:induction false} NormalizeIgnoresCase(t1: string, t2: string, acc: Dict, kvs1: seq<(string, Value)>, kvs2: seq<(string, Value)>)
    requires Fold(t1) == Fold(t2) && |kvs1| == |kvs2|
    requires forall i :: 0 <= i < |kvs1| ==> Fold(kvs1[i].0) == Fold(kvs2[i].0) && kvs1[i].1 == kvs2[i].1
    ensures NormalizeInto(t1, acc, kvs1) == NormalizeInto(t2, acc, kvs2)
    decreases |kvs1|
  {
    if |kvs1| > 0 {
      assert NormalizeValue(t1, kvs1[0].0, kvs1[0].1) == NormalizeValue(t2, kvs2[0].0, kvs2[0].1);
      var v := NormalizeValue(t1, kvs1[0].0, kvs1[0].1);
      if v.Ok? {
        NormalizeIgnoresCase(t1, t2, Put(acc, Fold(kvs1[0].0), v.value), kvs1[1..], kvs2[1..]);
      }
    }
  }

  /** A row without an id in a catalogue table gets the fresh id; rows of other tables get none added. */
  lemma NormalizedRowId(table: string, kvs: seq<(string, Value)>, newId: nat)
    requires Normalize(table, kvs).Ok?
    ensures NormalizedRow(table, kvs, newId).Ok?
    ensures IsCatalogue(table) && Lookup(Normalize(table, kvs).value, "id").None? ==>
      NormalizedRow(table, kvs, newId).value == Normalize(table, kvs).value + [("id", Guid(newId))]
    ensures !IsCatalogue(table) || Lookup(Normalize(table, kvs).value, "id").Some? ==>
      NormalizedRow(table, kvs, newId).value == Normalize(table, kvs).value
  {
  }

  /** Value comparison depends on column and table names only up to case. */
  lemma ValuesEqualIgnoresCase(t1: string, t2: string, k1: string, k2: string, left: Value, right: Value)
    requires Fold(t1) == Fold(t2) && Fold(k1) == Fold(k2)
    ensures ValuesEqual(t1, k1, left, right) == ValuesEqual(t2, k2, left, right)
  {
  }

  /** Text values compare ignoring case, in both directions. */
  lemma StringsIgnoreCase(table: string, key: string, a: string, b: string)
    requires !IsDateColumn(table, key)
    ensures ValuesEqual(table, key, Str(a), Str(b)) == Ok(Fold(a) == Fold(b))
    ensures ValuesEqual(table, key, Str(a), Str(b)) == ValuesEqual(table, key, Str(b), Str(a))
  {
  }

  /** In the date column a date-time equals the date of its day whatever its time, and a written date equals its day. */
  lemma DateComparesByDay(table: string, key: string, d: Calendar.Date, ticks: nat)
    requires IsDateColumn(table, key) && Calendar.ValidDate(d) && d.year <= 9999
    ensures ValuesEqual(table, key, Instant(Calendar.DayNumber(d), ticks), Day(Calendar.DayNumber(d))) == Ok(true)
    ensures ValuesEqual(table, key, Str(Calendar.EncodeDate(d)), Day(Calendar.DayNumber(d))) == Ok(true)
  {
    Calendar.ParseIsoDateOfEncode(d);
  }

  /** A stored boolean equals a filter value exactly when the filter value converts to the same boolean. */
  lemma BooleansCompareAfterConversion(table: string, key: string, b: bool, right: Value)
    requires !IsDateColumn(table, key) && !right.Null?
    ensures ValuesEqual(table, key, Bool(b), right).Ok? <==> ToBoolean(right).Ok?
    ensures ToBoolean(right).Ok? ==> ValuesEqual(table, key, Bool(b), right) == Ok(b == ToBoolean(right).value)
  {
  }

  /** String arrays are compared by reference, so a stored list never equals a filter list. */
  lemma StringArraysNeverEqual(table: string, key: string, xs: seq<string>, ys: seq<string>)
    requires !IsDateColumn(table, key)
    ensures ValuesEqual(table, key, Strs(xs), Strs(ys)) == Ok(false)
  {
  }

  /** Row tests depend on the table name only up to case. */
  lemma {:induction false} MatchesIgnoresCase(t1: string, t2: string, row: Dict, filters: Dict)
    requires Fold(t1) == Fold(t2)
    ensures Matches(t1, row, filters) == Matches(t2, row, filters)
    decreases |filters|
  {
    if |filters| > 0 {
      var rv := Lookup(row, filters[0].0);
      if rv.Some? {
        ValuesEqualIgnoresCase(t1, t2, filters[0].0, filters[0].0, rv.value, filters[0].1);
      }
      MatchesIgnoresCase(t1, t2, row, filters[1..]);
    }
  }

  lemma {:induction false} SplitIgnoresCase(t1: string, t2: string, rows: seq<Dict>, filters: Dict)
    requires Fold(t1) == Fold(t2)
    ensures Split(t1, rows, filters) == Split(t2, rows, filters)
    decreases |rows|
  {
    if |rows| > 0 {
      SplitIgnoresCase(t1, t2, rows[..|rows| - 1], filters);
      MatchesIgnoresCase(t1, t2, rows[|rows| - 1], filters);
    }
  }

  /**
   * Filter dictionaries whose column names differ only in case, on table
   * names that differ only in case, select, return and remove the same rows.
   */
  lemma FiltersIgnoreCase(t1: string, t2: string, rows: seq<Dict>, kvs1: seq<(string, Value)>, kvs2: seq<(string, Value)>, newId: nat)
    requires Fold(t1) == Fold(t2) && |kvs1| == |kvs2|
    requires forall i :: 0 <= i < |kvs1| ==> Fold(kvs1[i].0) == Fold(kvs2[i].0) && kvs1[i].1 == kvs2[i].1
    ensures Query(t1, rows, kvs1, newId) == Query(t2, rows, kvs2, newId)
    ensures Removed(t1, rows, kvs1) == Removed(t2, rows, kvs2)
    ensures Normalize(t1, kvs1) == Normalize(t2, kvs2)
    ensures forall nf :: RemoveAllRows(t1, rows, nf) == RemoveAllRows(t2, rows, nf)
  {
    NormalizeIgnoresCase(t1, t2, [], kvs1, kvs2);
    forall nf
      ensures RemoveAllRows(t1, rows, nf) == RemoveAllRows(t2, rows, nf)
    {
      KeptRowsIgnoresCase(t1, t2, rows, nf);
    }
    if Normalize(t1, kvs1).Ok? {
      var nf := Normalize(t1, kvs1).value;
      SplitIgnoresCase(t1, t2, rows, nf);
      if Split(t1, rows, nf).Ok? {
        var kept := Split(t1, rows, nf).value.0;
        assert ProjectAll(t1, kept, newId) == ProjectAll(t2, kept, newId);
      }
    }
  }

  lemma {:induction false} KeptRowsIgnoresCase(t1: string, t2: string, rows: seq<Dict>, filters: Dict)
    requires Fold(t1) == Fold(t2)
    ensures KeptRows(t1, rows, filters) == KeptRows(t2, rows, filters)
    decreases |rows|
  {
    if |rows| > 0 {
      KeptRowsIgnoresCase(t1, t2, rows[..|rows| - 1], filters);
      MatchesIgnoresCase(t1, t2, rows[|rows| - 1], filters);
    }
  }

  /** The shape of each projection: four fields for the three known tables, and the stored list (or none) for entry values. */
  lemma ProjectEntryData(table: string, row: Dict, newId: nat)
    requires IsTable(table, EntryData)
    ensures var r := Project(table, row, newId);
      && (Lookup(row, "date").None? ==> r[0] == Null)
      && (forall d :: Lookup(row, "date") == Some(Day(d)) ==> r[0] == Instant(d, 0))
      && r[1] == Lookup(row, "category").GetOr(Null)
      && r[2] == Lookup(row, "type").GetOr(Null)
      && (forall xs :: Lookup(row, "values_list") == Some(Strs(xs)) ==> r[3] == Strs(xs))
      && (Lookup(row, "values_list").None? ==> r[3] == Strs([]))
  {
  }

  /**
   * Catalogue projections: the stored id or the fresh one, type and
   * category (or parent type and value), and the stored flag, false when
   * none or null is stored.
   */
  lemma ProjectCatalogue(table: string, row: Dict, newId: nat)
    requires IsTable(table, EntryDefinitions) || IsTable(table, EntryValues)
    ensures var r := Project(table, row, newId);
      && (Lookup(row, "id").None? || Lookup(row, "id") == Some(Null) ==> r[0] == Guid(newId))
      && (Lookup(row, "id").Some? && !Lookup(row, "id").value.Null? ==> r[0] == Lookup(row, "id").value)
      && (IsTable(table, EntryDefinitions) ==> r[1] == Lookup(row, "type").GetOr(Null) && r[2] == Lookup(row, "category").GetOr(Null))
      && (IsTable(table, EntryValues) ==> r[1] == Lookup(row, "parent_type").GetOr(Null) && r[2] == Lookup(row, "value").GetOr(Null))
      && (var flag := if IsTable(table, EntryDefinitions) then "allows_multiple" else "is_notable";
          && (Lookup(row, flag).None? || Lookup(row, flag) == Some(Null) ==> r[3] == Bool(false))
          && (Lookup(row, flag).Some? && !Lookup(row, flag).value.Null? ==> r[3] == Lookup(row, flag).value))
  {
  }
}
