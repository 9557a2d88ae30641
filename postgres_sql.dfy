/**
 * The SQL text the PostgreSQL store sends, and the parameters it binds,
 * for each of its five operations.  Column and filter dictionaries are
 * read in their enumeration order; every value is bound under the name
 * `@<column>` (`@f_<column>` for the filters of an update), a null as
 * `DBNull`.  Opening connections and running the commands is not part of
 * this model.
 */
module PostgresSql {
  import opened Text
  import Store

  /** What a parameter is bound to: the value itself, or `DBNull.Value` for a null. */
  datatype Param = DbNull | Bound(value: Store.Value)

  /** The text of a command and its parameters, in the order they are added. */
  datatype Command = Command(sql: string, parameters: seq<(string, Param)>)

  function ParamOf(v: Store.Value): Param {
    if v.Null? then DbNull else Bound(v)
  }

  /** `"@" + prefix + k` for each key, in order. */
  function Placeholders(keys: seq<string>, prefix: string): (r: seq<string>)
    ensures |r| == |keys|
  {
    seq(|keys|, i requires 0 <= i < |keys| => "@" + prefix + keys[i])
  }

  /** `$"{k} = @{prefix}{k}"` for each key, in order. */
  function Terms(keys: seq<string>, prefix: string): (r: seq<string>)
    ensures |r| == |keys|
  {
    seq(|keys|, i requires 0 <= i < |keys| => keys[i] + " = @" + prefix + keys[i])
  }

  /** The `AddWithValue` loop: one parameter per dictionary entry, named after its key. */
  function Bindings(kvs: Store.Dict, prefix: string): (r: seq<(string, Param)>)
    ensures |r| == |kvs|
  {
    seq(|kvs|, i requires 0 <= i < |kvs| => ("@" + prefix + kvs[i].0, ParamOf(kvs[i].1)))
  }

  function ParamNames(ps: seq<(string, Param)>): (r: seq<string>)
    ensures |r| == |ps|
  {
    seq(|ps|, i requires 0 <= i < |ps| => ps[i].0)
  }

  /** AddAsync. */
  function Insert(table: string, columns: Store.Dict): Command {
    var keys := Store.Keys(columns);
    Command("INSERT INTO " + table + " (" + Join(", ", keys) + ") VALUES (" + Join(", ", Placeholders(keys, "")) + ")",
            Bindings(columns, ""))
  }

  /** RemoveAsync: nothing guards an empty filter set. */
  function Delete(table: string, filters: Store.Dict): Command {
    Command("DELETE FROM " + table + " WHERE " + Join(" AND ", Terms(Store.Keys(filters), "")), Bindings(filters, ""))
  }

  /** GetAsync: the WHERE clause is left out when there are no filters. */
  function Select(table: string, filters: Store.Dict): Command {
    var where := if |filters| > 0 then "WHERE " + Join(" AND ", Terms(Store.Keys(filters), "")) else "";
    Command("SELECT * FROM " + table + " " + where, Bindings(filters, ""))
  }

  /** UpdateAsync: the filters' parameters carry the prefix `f_`. */
  function Update(table: string, columns: Store.Dict, filters: Store.Dict): Command {
    Command("UPDATE " + table + " SET " + Join(", ", Terms(Store.Keys(columns), ""))
            + " WHERE " + Join(" AND ", Terms(Store.Keys(filters), "f_")),
            Bindings(columns, "") + Bindings(filters, "f_"))
  }

  /** GetAllAsync. */
  function SelectAll(table: string): Command {
    Command("SELECT * FROM " + table, [])
  }

  /** The `foreach ... AddWithValue` loop: appends one parameter per entry to the command's parameters. */
  method AddParameters(parameters: seq<(string, Param)>, kvs: Store.Dict, prefix: string) returns (r: seq<(string, Param)>)
    ensures r == parameters + Bindings(kvs, prefix)
  {
    r := parameters;
    for i := 0 to |kvs|
      invariant r == parameters + Bindings(kvs[..i], prefix)
    {
      assert Bindings(kvs[..i + 1], prefix) == Bindings(kvs[..i], prefix) + [("@" + prefix + kvs[i].0, ParamOf(kvs[i].1))];
      r := r + [("@" + prefix + kvs[i].0, if kvs[i].1.Null? then DbNull else Bound(kvs[i].1))];
    }
    assert kvs[..|kvs|] == kvs;
  }

  /** UpdateAsync's command: the text, then the column parameters, then the filter parameters. */
  method BuildUpdate(table: string, columns: Store.Dict, filters: Store.Dict) returns (c: Command)
    ensures c == Update(table, columns, filters)
  {
    var sql := "UPDATE " + table + " SET " + Join(", ", Terms(Store.Keys(columns), ""))
      + " WHERE " + Join(" AND ", Terms(Store.Keys(filters), "f_"));
    var ps := AddParameters([], columns, "");
    ps := AddParameters(ps, filters, "f_");
    c := Command(sql, ps);
  }

  // ---- lemmas ----

  lemma {:induction false} KeysAt(d: Store.Dict, i: int)
    requires 0 <= i < |d|
    ensures Store.Keys(d)[i] == d[i].0
  {
    if i > 0 {
      KeysAt(d[1..], i - 1);
    }
  }

  /** The parameters bound are exactly the placeholders written, in the same order. */
  lemma BindingsNamePlaceholders(kvs: Store.Dict, prefix: string)
    ensures ParamNames(Bindings(kvs, prefix)) == Placeholders(Store.Keys(kvs), prefix)
  {
    forall i | 0 <= i < |kvs|
      ensures ParamNames(Bindings(kvs, prefix))[i] == Placeholders(Store.Keys(kvs), prefix)[i]
    {
      KeysAt(kvs, i);
    }
  }

  /** A parameter is DBNull exactly when its value is null; otherwise it carries the value. */
  lemma BindingsValues(kvs: Store.Dict, prefix: string, i: int)
    requires 0 <= i < |kvs|
    ensures Bindings(kvs, prefix)[i].1 == DbNull <==> kvs[i].1.Null?
    ensures !kvs[i].1.Null? ==> Bindings(kvs, prefix)[i].1 == Bound(kvs[i].1)
  {
  }

  /**
   * The INSERT lists the columns and then the placeholders of the
   * parameters actually bound, one per column and in the same order.
   */
  lemma InsertShape(table: string, columns: Store.Dict)
    ensures var c := Insert(table, columns);
      && |c.parameters| == |columns|
      && c.sql == "INSERT INTO " + table + " (" + Join(", ", Store.Keys(columns)) + ") VALUES ("
                  + Join(", ", ParamNames(c.parameters)) + ")"
  {
    BindingsNamePlaceholders(columns, "");
  }

  /** Without filters the DELETE text ends in `WHERE ` and binds nothing. */
  lemma DeleteWithoutFilters(table: string)
    ensures Delete(table, []) == Command("DELETE FROM " + table + " WHERE ", [])
  {
    assert Store.Keys([]) == [];
  }

  /** Without filters the SELECT has no WHERE clause (the text keeps the separating blank). */
  lemma SelectWithoutFilters(table: string)
    ensures Select(table, []) == Command("SELECT * FROM " + table + " ", [])
  {
  }

  /** With filters, SELECT and DELETE share the same WHERE clause and the same parameters. */
  lemma SelectSharesDeleteWhere(table: string, filters: Store.Dict)
    requires |filters| > 0
    ensures var w := Join(" AND ", Terms(Store.Keys(filters), ""));
      && Delete(table, filters).sql == "DELETE FROM " + table + " WHERE " + w
      && Select(table, filters).sql == "SELECT * FROM " + table + " WHERE " + w
      && Select(table, filters).parameters == Delete(table, filters).parameters
  {
    var w := Join(" AND ", Terms(Store.Keys(filters), ""));
    var head := "SELECT * FROM " + table;
    assert head + " " + ("WHERE " + w) == head + " WHERE " + w;
  }

  /** A single filter gives a single `k = @k` term. */
  lemma DeleteOneFilter(table: string, k: string, v: Store.Value)
    ensures Delete(table, [(k, v)]).sql == "DELETE FROM " + table + " WHERE " + k + " = @" + k
    ensures Delete(table, [(k, v)]).parameters == [("@" + k, ParamOf(v))]
  {
    KeysAt([(k, v)], 0);
    assert " = @" + "" == " = @" && "@" + "" == "@";
    var terms := Terms(Store.Keys([(k, v)]), "");
    assert terms[0] == k + " = @" + "" + k;
    assert k + " = @" + "" == k + " = @";
    assert terms == [k + " = @" + k];
    var head := "DELETE FROM " + table + " WHERE ";
    assert head + (k + " = @" + k) == head + k + " = @" + k;
  }

  /** The get-all text is the bare SELECT. */
  lemma SelectAllText(table: string)
    ensures SelectAll(table).sql == "SELECT * FROM " + table && SelectAll(table).parameters == []
  {
  }

  /** Distinct keys give distinct parameter names. */
  lemma BindingsDistinct(kvs: Store.Dict, prefix: string)
    requires Store.DistinctKeys(kvs)
    ensures forall i, j :: 0 <= i < j < |kvs| ==> Bindings(kvs, prefix)[i].0 != Bindings(kvs, prefix)[j].0
  {
    forall i, j | 0 <= i < j < |kvs|
      ensures Bindings(kvs, prefix)[i].0 != Bindings(kvs, prefix)[j].0
    {
      var n := |"@" + prefix|;
      assert Bindings(kvs, prefix)[i].0[n..] == kvs[i].0;
      assert Bindings(kvs, prefix)[j].0[n..] == kvs[j].0;
    }
  }

  /**
   * A column that is both assigned and filtered on is bound twice, under
   * two different names, so the two values never clash.
   */
  lemma UpdateBindsSharedColumnTwice(table: string, columns: Store.Dict, filters: Store.Dict, i: int, j: int)
    requires 0 <= i < |columns| && 0 <= j < |filters| && columns[i].0 == filters[j].0
    ensures var ps := Update(table, columns, filters).parameters;
      && ps[i] == ("@" + columns[i].0, ParamOf(columns[i].1))
      && ps[|columns| + j] == ("@f_" + filters[j].0, ParamOf(filters[j].1))
      && ps[i].0 != ps[|columns| + j].0
  {
    var ps := Update(table, columns, filters).parameters;
    var a := Bindings(columns, "");
    assert "@" + "" == "@";
    assert ps[i] == a[i] == ("@" + "" + columns[i].0, ParamOf(columns[i].1));
    assert ps[|columns| + j] == Bindings(filters, "f_")[j];
    assert "@" + "f_" == "@f_";
    assert ps[|columns| + j].0 == "@" + "f_" + filters[j].0;
    assert |ps[i].0| < |ps[|columns| + j].0|;
  }

  /**
   * All parameter names of an UPDATE are distinct when each dictionary has
   * distinct keys and no assigned column's name starts with `f_`.
   */
  lemma UpdateParametersDistinct(table: string, columns: Store.Dict, filters: Store.Dict)
    requires Store.DistinctKeys(columns) && Store.DistinctKeys(filters)
    requires forall i :: 0 <= i < |columns| ==> !("f_" <= columns[i].0)
    ensures var ps := Update(table, columns, filters).parameters;
      forall i, j :: 0 <= i < j < |ps| ==> ps[i].0 != ps[j].0
  {
    var ps := Update(table, columns, filters).parameters;
    var a, b := Bindings(columns, ""), Bindings(filters, "f_");
    BindingsDistinct(columns, "");
    BindingsDistinct(filters, "f_");
    forall i, j | 0 <= i < j < |ps|
      ensures ps[i].0 != ps[j].0
    {
      if i < |a| && j >= |a| {
        var x, y := ps[i].0, ps[j].0;
        assert x == "@" + columns[i].0;
        assert y == "@f_" + filters[j - |a|].0;
        assert x[1..] == columns[i].0;
        assert "f_" <= y[1..];
      } else if i >= |a| {
        assert ps[i] == b[i - |a|] && ps[j] == b[j - |a|];
      }
    }
  }
}
