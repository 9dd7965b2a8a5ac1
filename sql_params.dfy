/**
 * `getParams` and the table path of `dropTable`: the query parameters
 * bound from a parsed column list, and the bracket-quoted name of a table.
 */
module SqlParams {
  import opened JsText
  import opened JsValue
  import opened SqlSchema

  // ---------------------------------------------------------------------------
  // getParams

  /** One bound parameter: the column's type and the item's value for it. */
  datatype Param = Param(sqlType: SqlType, val: Value)

  /** A record read by property name; a missing property reads as `undefined`. */
  type Item = map<string, Value>

  /** `_.filter(model, type => !~nonParams.indexOf(type.name))`: the columns not listed, in order. */
  function ParamColumns(model: seq<Column>, nonParams: seq<string>): (r: seq<Column>)
    ensures forall c :: c in r <==> c in model && c.name !in nonParams
    ensures IsSubsequence(r, model)
    decreases |model|
  {
    if model == [] then []
    else
      var rest := ParamColumns(model[1..], nonParams);
      if model[0].name !in nonParams then
        assert ([model[0]] + rest)[1..] == rest;
        [model[0]] + rest
      else rest
  }

  /** The last column named `k`: the one whose entry survives the left-to-right `_.assign`s. */
  function LastNamed(cols: seq<Column>, k: string): (c: Column)
    requires exists x | x in cols :: x.name == k
    ensures c in cols && c.name == k
    decreases |cols|
  {
    var last := cols[|cols| - 1];
    if last.name == k then last
    else
      var init := cols[..|cols| - 1];
      assert cols == init + [last];
      LastNamed(init, k)
  }

  /** `_.reduce(cols, (obj, {type, name}) => _.assign({}, obj, {[name]: {type, val: item[name]}}), {})` */
  function BindAll(cols: seq<Column>, item: Item): (r: map<string, Param>)
    ensures r.Keys == set c | c in cols :: c.name
    ensures forall k | k in r :: r[k] == Param(LastNamed(cols, k).sqlType, PropertyOf(item, k))
    decreases |cols|
  {
    if cols == [] then map[]
    else
      var init := cols[..|cols| - 1];
      var c := cols[|cols| - 1];
      assert cols == init + [c];
      BindAll(init, item)[c.name := Param(c.sqlType, PropertyOf(item, c.name))]
  }

  /**
   * `getParams(model, nonParams, item)`: one entry per column name not in
   * `nonParams`, holding the column's type and `item[name]`.
   */
  function GetParams(model: seq<Column>, nonParams: seq<string>, item: Item): (r: map<string, Param>)
    ensures r.Keys == set c | c in model && c.name !in nonParams :: c.name
    ensures forall k | k in r :: r[k].val == PropertyOf(item, k)
    ensures forall k | k in r :: exists c | c in model && c.name == k :: r[k].sqlType == c.sqlType
    ensures forall k | k in r ::
      (exists c | c in ParamColumns(model, nonParams) :: c.name == k)
      && r[k].sqlType == LastNamed(ParamColumns(model, nonParams), k).sqlType
  {
    var cols := ParamColumns(model, nonParams);
    assert (set c | c in cols :: c.name) == (set c | c in model && c.name !in nonParams :: c.name);
    BindAll(cols, item)
  }

  /**
   * Each bound column whose name is not repeated gets exactly its own type
   * and the item's value under its name; a property the item lacks is
   * `undefined`, not an error.
   */
  lemma {:induction false} GetParamsOfColumn(model: seq<Column>, nonParams: seq<string>, item: Item, c: Column)
    requires c in model && c.name !in nonParams
    requires forall d | d in model && d.name == c.name :: d == c
    ensures c.name in GetParams(model, nonParams, item)
    ensures GetParams(model, nonParams, item)[c.name] == Param(c.sqlType, PropertyOf(item, c.name))
  {
    var cols := ParamColumns(model, nonParams);
    assert c in cols;
    assert LastNamed(cols, c.name) in model;
  }

  // ---------------------------------------------------------------------------
  // dropTable

  /** `/^\[.*\]$/`: starts with `[`, ends with `]`, no line terminator in between. */
  predicate Bracketed(s: string) {
    |s| >= 2 && s[0] == '[' && s[|s| - 1] == ']' && forall k | 1 <= k < |s| - 1 :: !IsLineTerminator(s[k])
  }

  /** The name as is when already bracketed, otherwise wrapped in `[` and `]`. */
  function EnsureBrackets(s: string): (r: string)
    ensures Bracketed(s) ==> r == s
    ensures !Bracketed(s) ==> r == "[" + s + "]"
    ensures (forall c | c in s :: !IsLineTerminator(c)) ==> Bracketed(r)
  {
    if Bracketed(s) then s
    else
      var r := "[" + s + "]";
      assert forall k | 1 <= k < |r| - 1 :: r[k] == s[k - 1];
      r
  }

  /** Bracketing twice is bracketing once, for a name on one line. */
  lemma EnsureBracketsIdempotent(s: string)
    requires forall c | c in s :: !IsLineTerminator(c)
    ensures EnsureBrackets(EnsureBrackets(s)) == EnsureBrackets(s)
  {
  }

  /** `_tablePath`: `[dbo].[table]`, behind `[database].` when a database is given (`""` is falsy). */
  function TablePath(tableName: string, database: string): (r: string)
    ensures database == "" ==> r == "[dbo]." + EnsureBrackets(tableName)
    ensures database != "" ==> r == EnsureBrackets(database) + "." + "[dbo]." + EnsureBrackets(tableName)
  {
    var table := "[dbo]." + EnsureBrackets(tableName);
    if database != "" then EnsureBrackets(database) + "." + table else table
  }

  /** The statement `dropTable` executes. */
  function DropTableQuery(tableName: string, database: string): (r: string)
    ensures |r| > 11 && r[..11] == "DROP TABLE " && r[11..] == TablePath(tableName, database)
  {
    "DROP TABLE " + TablePath(tableName, database)
  }

  /**
   * The query ends in the bracketed table name of the default schema: the
   * name itself when already bracketed, otherwise the name wrapped once.
   */
  lemma DropTableNamesTable(tableName: string, database: string)
    requires forall c | c in tableName :: !IsLineTerminator(c)
    ensures var q := DropTableQuery(tableName, database);
      var t := EnsureBrackets(tableName);
      && Bracketed(t) && |q| >= |t| + 17
      && q[|q| - |t|..] == t
      && q[|q| - |t| - 6..|q| - |t|] == "[dbo]."
  {
    var q := DropTableQuery(tableName, database);
    var t := EnsureBrackets(tableName);
    var path := TablePath(tableName, database);
    var head := if database != "" then EnsureBrackets(database) + "." else "";
    assert path == head + "[dbo]." + t;
    assert q == "DROP TABLE " + head + "[dbo]." + t;
  }
}
