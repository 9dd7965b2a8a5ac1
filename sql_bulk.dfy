/**
 * `createMany`: one bulk-insert table built from a record collection and
 * the column list of the table's initialisation script, then the inserted
 * rows read back newest first.  The driver's connection, its bulk request
 * and the read-back query are outside the model: their results are inputs.
 */
module SqlBulk {
  import opened Outcome
  import opened JsText
  import opened JsValue
  import opened SqlSchema

  /** A record of the collection, read by column name. */
  type Record = map<string, Value>

  /** The `collection` argument: an array of records, or one record. */
  datatype Collection = ArrayOf(items: seq<Record>) | SingleObject(item: Record)

  /** Why the returned promise rejects. */
  datatype Failure =
    | PathNotDefined          // `path.resolve` on an identifier that was never imported
    | TypeUndefined(column: string)  // `col.type.type` on a column whose type lookup found nothing
    | BulkFailed
    | QueryFailed

  /** What the promise resolves to. */
  datatype Resolution = Records(records: seq<Record>) | Single(record: Option<Record>)

  datatype Settled = Resolved(value: Resolution) | Rejected(failure: Failure)

  // ---------------------------------------------------------------------------
  // The value coercion of one cell

  /** `/Int/.test(col.type.type || col.type)`: the driver's type name mentions `Int`. */
  predicate IsIntType(t: SqlType)
    requires !t.Missing?
  {
    Contains(t.entry.driverName, "Int")
  }

  /** `(_value || '').toString() === 'NaN' || _value === 'NaN' || _.isUndefined(_value)` */
  predicate NullsInAnyColumn(v: Value) {
    (Truthy(v) && ToString(v) == "NaN") || v == Str("NaN") || v == Undefined
  }

  /** A truthy value reads as `NaN` exactly when it is the string `NaN`. */
  lemma NullsInAnyColumnIff(v: Value)
    ensures NullsInAnyColumn(v) <==> v == Str("NaN") || v == Undefined
  {
    if v.Int? {
      var t := IntToDecimal(v.i);
      assert t[0] == '-' || IsDigit(t[0]);
      assert t != "NaN";
    }
  }

  /**
   * The cell value as the source computes it: `null` for the cases above
   * or for an integer column and `isNaN(value)`; else `parseInt(value)` for
   * an integer column, the value unchanged otherwise.  A column without a
   * type throws.
   */
  function CoerceAsWritten(v: Value, t: SqlType): (r: Result<Value, Failure>)
    ensures t.Missing? <==> r.Err?
    ensures r.Ok? && NullsInAnyColumn(v) ==> r.value == Null
    ensures r.Ok? && !IsIntType(t) ==> r.value == v || r.value == Null
    ensures r.Ok? && IsIntType(t) && !NullsInAnyColumn(v) ==> (r.value == Null <==> IsNaN(v))
    ensures r.Ok? && IsIntType(t) && r.value != Null ==>
      r.value == (if ParseInt(ToString(v)).Some? then Int(ParseInt(ToString(v)).value) else NaN)
  {
    if t.Missing? then Err(TypeUndefined(""))
    else if NullsInAnyColumn(v) || (IsIntType(t) && IsNaN(v)) then Ok(Null)
    else if IsIntType(t) then
      match ParseInt(ToString(v))
      case None => Ok(NaN)
      case Some(n) => Ok(Int(n))
    else Ok(v)
  }

  /**
   * `isNaN` and `parseInt` disagree on `null`, booleans, blank strings and
   * more: `Number(null)` is `0` but `parseInt("null")` is `NaN`, so an
   * integer column receives `NaN` where the source meant `null`.
   */
  lemma AsWrittenNullBecomesNaN(t: SqlType)
    requires !t.Missing? && IsIntType(t)
    ensures CoerceAsWritten(Null, t) == Ok(NaN)
  {
    var text := ToString(Null);
    assert text[0] == 'n' && !IsSpace(text[0]) && !IsDigit(text[0]);
    assert SpaceRunEnd(text, 0) == 0;
    assert TrimStart(text) == text;
    assert PrefixLen(text, IsDigit) == 0;
    assert UnsignedPrefixValue(text) == None;
    assert ParseInt(text) == None;
  }

  lemma AsWrittenBlankBecomesNaN(t: SqlType)
    requires !t.Missing? && IsIntType(t)
    ensures CoerceAsWritten(Str(""), t) == Ok(NaN)
  {
    assert !IsNaN(Str("")) by {
      assert Trim("") == "";
    }
    ParseIntOfBlank("");
  }

  lemma AsWrittenNaNPassesThrough(t: SqlType)
    requires !t.Missing? && !IsIntType(t)
    ensures CoerceAsWritten(NaN, t) == Ok(NaN)
  {
  }

  /** The values the source means to send as `null` in any column: `undefined` and `NaN`, as a number or as text. */
  predicate IsMissingOrNaN(v: Value) {
    v == Undefined || v == NaN || v == Str("NaN")
  }

  /**
   * The coercion as the source intends it: `undefined` and `NaN` never
   * reach the driver, and an integer column gets an integer or `null`.
   */
  function Coerce(v: Value, t: SqlType): (r: Result<Value, Failure>)
    ensures t.Missing? <==> r.Err?
    ensures r.Ok? ==> r.value != NaN && r.value != Undefined
    ensures r.Ok? && IsIntType(t) ==> r.value.Null? || r.value.Int?
    ensures r.Ok? && IsIntType(t) ==>
      (r.value == Null <==> IsMissingOrNaN(v) || IsNaN(v) || ParseInt(ToString(v)).None?)
    ensures r.Ok? && IsIntType(t) && r.value.Int? ==> Some(r.value.i) == ParseInt(ToString(v))
    ensures r.Ok? && !IsIntType(t) ==> r.value == (if IsMissingOrNaN(v) then Null else v)
  {
    if t.Missing? then Err(TypeUndefined(""))
    else if IsMissingOrNaN(v) || (IsIntType(t) && IsNaN(v)) then Ok(Null)
    else if IsIntType(t) then
      match ParseInt(ToString(v))
      case None => Ok(Null)
      case Some(n) => Ok(Int(n))
    else Ok(v)
  }

  /** The two coercions differ only where the source's one sends `NaN`, which the intended one sends as `null`. */
  lemma CoerceAgreesOffNaN(v: Value, t: SqlType)
    ensures CoerceAsWritten(v, t).Ok? && CoerceAsWritten(v, t).value != NaN ==> Coerce(v, t) == CoerceAsWritten(v, t)
    ensures CoerceAsWritten(v, t).Ok? && CoerceAsWritten(v, t).value == NaN ==> Coerce(v, t) == Ok(Null)
  {
    NullsInAnyColumnIff(v);
  }

  /** An integer stays the same integer in an integer column. */
  lemma CoerceKeepsIntegers(i: int, t: SqlType)
    requires !t.Missing? && IsIntType(t)
    requires -1_000_000_000_000_000_000_000 < i < 1_000_000_000_000_000_000_000
    ensures Coerce(Int(i), t) == Ok(Int(i))
  {
    assert !IsMissingOrNaN(Int(i)) && !IsNaN(Int(i));
    assert ToString(Int(i)) == IntToDecimal(i);
    ParseIntOfDecimal(i);
  }

  // ---------------------------------------------------------------------------
  // One row per record

  /** `_.map(_columns, col => …)` for one record: the first column without a type throws. */
  function RowOf(item: Record, columns: seq<Column>): (r: Result<seq<Value>, Failure>)
    ensures r.Ok? <==> forall c | c in columns :: !c.sqlType.Missing?
    ensures r.Err? ==> r.error.TypeUndefined?
    ensures r.Ok? ==> |r.value| == |columns|
    ensures r.Ok? ==> forall i | 0 <= i < |columns| ::
      Coerce(if columns[i].name in item then item[columns[i].name] else Undefined, columns[i].sqlType) == Ok(r.value[i])
    decreases |columns|
  {
    if columns == [] then Ok([])
    else
      var c := columns[0];
      var v := if c.name in item then item[c.name] else Undefined;
      match Coerce(v, c.sqlType)
      case Err(_) => Err(TypeUndefined(c.name))
      case Ok(x) =>
        match RowOf(item, columns[1..])
        case Err(e) => Err(e)
        case Ok(xs) =>
          assert forall i | 1 <= i < |columns| :: columns[i] == columns[1..][i - 1];
          Ok([x] + xs)
  }

  /** A value the record lacks is sent as `null`, never as `undefined`. */
  lemma MissingFieldIsNull(item: Record, columns: seq<Column>, i: nat)
    requires RowOf(item, columns).Ok? && i < |columns| && columns[i].name !in item
    ensures RowOf(item, columns).value[i] == Null
  {
  }

  // ---------------------------------------------------------------------------
  // The read-back query and the resolved value

  /**
   * `find.replace('SELECT', 'SELECT TOP ' + rowCount) + 'ORDER BY [' + mainId + '] DESC'`:
   * the first `SELECT` gains the row limit and the ordering is appended.
   */
  function ReadBackQuery(find: string, rowCount: nat, mainId: string): (r: string)
    ensures var tail := "ORDER BY [" + mainId + "] DESC";
      && |r| >= |tail| && r[|r| - |tail|..] == tail
      && (IndexOf(find, "SELECT", 0).None? ==> r[..|r| - |tail|] == find)
      && (IndexOf(find, "SELECT", 0).Some? ==>
            var i := IndexOf(find, "SELECT", 0).value + 6;
            var top := " TOP " + NatToDecimal(rowCount);
            var body := r[..|r| - |tail|];
            && |body| == |find| + |top| && i <= |find|
            && body[..i] == find[..i] && body[i..i + |top|] == top && body[i + |top|..] == find[i..])
  {
    var tail := "ORDER BY [" + mainId + "] DESC";
    var top := " TOP " + NatToDecimal(rowCount);
    var selected :=
      match IndexOf(find, "SELECT", 0)
      case None => find
      case Some(i) => (SpliceAfter(find, i, "SELECT", top); find[..i] + "SELECT" + top + find[i + 6..]);
    assert (selected + tail)[..|selected|] == selected && (selected + tail)[|selected|..] == tail;
    selected + tail
  }

  /** Inserting `top` right after an occurrence of `word` at `i` leaves the text around it in place. */
  lemma SpliceAfter(s: string, i: nat, word: string, top: string)
    requires MatchesAt(s, i, word)
    ensures var j := i + |word|;
      var body := s[..i] + word + top + s[j..];
      && |body| == |s| + |top| && j <= |s|
      && body[..j] == s[..j] && body[j..j + |top|] == top && body[j + |top|..] == s[j..]
  {
    var j := i + |word|;
    var body := s[..i] + word + top + s[j..];
    assert s[..j] == s[..i] + word by {
      assert s[i..j] == word;
    }
    assert body == s[..j] + top + s[j..];
  }

  /** `mainId` defaults to `baseName + 'Id'` when falsy. */
  function MainId(baseName: string, mainId: string): (r: string)
    ensures mainId != "" ==> r == mainId
    ensures mainId == "" ==> r == baseName + "Id"
  {
    if mainId != "" then mainId else baseName + "Id"
  }

  function Reverse<T>(s: seq<T>): (r: seq<T>)
    ensures |r| == |s|
    ensures forall i | 0 <= i < |s| :: r[i] == s[|s| - 1 - i]
  {
    seq(|s|, i requires 0 <= i < |s| => s[|s| - 1 - i])
  }

  /** `_isArray ? objectify(items).reverse() : objectify(items[0])` */
  function Shape(isArray: bool, items: seq<Record>): (r: Resolution)
    ensures isArray ==> r.Records? && r.records == Reverse(items)
    ensures !isArray ==> r.Single? && (r.record.Some? <==> items != []) && (items != [] ==> r.record.value == items[0])
  {
    if isArray then Records(Reverse(items))
    else if items == [] then Single(None)
    else Single(Some(items[0]))
  }

  // ---------------------------------------------------------------------------
  // The table handed to the bulk request

  /** `new mssql.Table(name)`: columns and rows are added in place. */
  class BulkTable {
    var name: string
    var create: bool
    var columns: seq<Column>
    var rows: seq<seq<Value>>

    constructor (name: string)
      ensures this.name == name && !create && columns == [] && rows == []
    {
      this.name := name;
      create := false;
      columns := [];
      rows := [];
    }

    /** `_table.columns.add(col.name, col.type, {nullable, default})` */
    method AddColumn(c: Column)
      modifies this
      ensures columns == old(columns) + [c]
      ensures name == old(name) && create == old(create) && rows == old(rows)
    {
      columns := columns + [c];
    }

    /** `_table.rows.add(...row)` */
    method AddRow(row: seq<Value>)
      modifies this
      ensures rows == old(rows) + [row]
      ensures name == old(name) && create == old(create) && columns == old(columns)
    {
      rows := rows + [row];
    }
  }

  /** The collection as an array: a single record becomes a one-element array. */
  function Items(collection: Collection): (r: seq<Record>)
    ensures collection.SingleObject? ==> r == [collection.item]
    ensures collection.ArrayOf? ==> r == collection.items
  {
    match collection
    case ArrayOf(items) => items
    case SingleObject(item) => [item]
  }

  /**
   * `createMany` with the column list of the initialisation script given
   * (`columns`), the text of the find script (`find`), the bulk request's
   * row count (`None` when it fails) and the read-back rows (`None` when
   * the query fails).  Returns the outcome, the table built (`null` when
   * none is), and the read-back query sent (`""` when none is).
   */
  method CreateMany(collection: Collection, tableName: string, baseName: string, mainId: string,
                    columns: seq<Column>, find: string, rowCount: Option<nat>, readBack: Option<seq<Record>>)
    returns (outcome: Settled, table: BulkTable?, query: string)
    ensures Items(collection) == [] ==> outcome == Resolved(Records([])) && table == null && query == ""
    ensures Items(collection) != [] ==> table != null && fresh(table) && table.name == tableName && table.create
    ensures Items(collection) != [] && (exists c | c in columns :: c.sqlType.Missing?) ==>
              outcome.Rejected? && outcome.failure.TypeUndefined? && query == ""
    ensures Items(collection) != [] && (forall c | c in columns :: !c.sqlType.Missing?) ==>
              && table.columns == columns
              && |table.rows| == |Items(collection)|
              && (forall k | 0 <= k < |table.rows| :: RowOf(Items(collection)[k], columns) == Ok(table.rows[k]))
              && (rowCount.None? ==> outcome == Rejected(BulkFailed) && query == "")
              && (rowCount.Some? ==> query == ReadBackQuery(find, rowCount.value, MainId(baseName, mainId)))
              && (rowCount.Some? && readBack.None? ==> outcome == Rejected(QueryFailed))
              && (rowCount.Some? && readBack.Some? ==> outcome == Resolved(Shape(collection.ArrayOf?, readBack.value)))
  {
    var items := Items(collection);
    query := "";
    if items == [] {
      return Resolved(Records([])), null, query;
    }
    table := new BulkTable(tableName);
    table.create := true;
    var i := 0;
    while i < |columns|
      invariant 0 <= i <= |columns|
      invariant table.columns == columns[..i] && table.rows == []
      invariant table.name == tableName && table.create
    {
      table.AddColumn(columns[i]);
      i := i + 1;
    }
    var k := 0;
    while k < |items|
      invariant 0 <= k <= |items|
      invariant table.columns == columns && |table.rows| == k
      invariant table.name == tableName && table.create
      invariant forall j | 0 <= j < k :: RowOf(items[j], columns) == Ok(table.rows[j])
    {
      var row := RowOf(items[k], columns);
      if row.Err? {
        return Rejected(row.error), table, query;
      }
      table.AddRow(row.value);
      k := k + 1;
    }
    assert RowOf(items[0], columns).Ok?;
    if rowCount.None? {
      return Rejected(BulkFailed), table, query;
    }
    query := ReadBackQuery(find, rowCount.value, MainId(baseName, mainId));
    if readBack.None? {
      return Rejected(QueryFailed), table, query;
    }
    outcome := Resolved(Shape(collection.ArrayOf?, readBack.value));
  }

  /**
   * `createMany` as written: `path` is not imported, so for any non-empty
   * collection `path.resolve` throws before a column is read, and the
   * promise rejects.
   */
  function CreateManyAsWritten(collection: Collection): (r: Settled)
    ensures Items(collection) == [] ==> r == Resolved(Records([]))
  {
    if Items(collection) == [] then Resolved(Records([])) else Rejected(PathNotDefined)
  }

  /** No call with records can succeed as written; a single record is never empty. */
  lemma AsWrittenAlwaysRejects(collection: Collection)
    requires collection.SingleObject? || collection.items != []
    ensures CreateManyAsWritten(collection) == Rejected(PathNotDefined)
  {
  }
}
