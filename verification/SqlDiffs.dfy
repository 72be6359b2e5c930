/** From parsed statements to diffs, and back from diffs to SQL text. */
module SqlDiffs {
  import opened Machine
  import opened Texts
  import opened SqlGrammar
  import opened SqlRoundTrip
  import opened Batches
  import Tables

  type Diff = Tables.Diff

  function ToJson(v: SqlValue): Json {
    match v
    case Integer(i) => JInt(i)
    case Float(text) => JOther(text)
    case String(s) => JString(s)
    case Boolean(b) => JBool(b)
    case Null => JNull
  }

  function ToRowId(v: SqlValue): Parsed<RowId> {
    if v.Integer? && v.i >= 0 then Ok(v.i) else Err(NotARowId(v))
  }

  /** The columns that give an inserted row its id. */
  predicate NamesRow(column: string) {
    Upper(column) == Upper("row_id") || Upper(column) == Upper("id") || Upper(column) == Upper("actor_id")
  }

  predicate EndsWith(s: string, end: string) {
    |s| >= |end| && s[|s| - |end|..] == end
  }

  /** The columns by which a WHERE clause may pick a row. */
  predicate PicksRow(column: string) {
    EndsWith(Upper(column), Upper("_id")) || Upper(column) == Upper("id") || Upper(column) == Upper("row_id")
  }

  function ConditionRow(c: Condition): Parsed<RowId> {
    if c.operator != Eq then Err(NotAnEquality)
    else if !PicksRow(c.column) then Err(NotAnIdColumn(c.column))
    else ToRowId(c.value)
  }

  // ---------------------------------------------------------------- what an INSERT means

  /** The last of the first n columns that names the row. */
  ghost predicate IsLastId(columns: seq<string>, n: nat, i: int)
    requires n <= |columns|
  {
    0 <= i < n && NamesRow(columns[i]) && forall j :: i < j < n ==> !NamesRow(columns[j])
  }

  /** Among the first n columns, all that name the row hold row ids. */
  ghost predicate IdsHold(columns: seq<string>, values: seq<SqlValue>, n: nat)
    requires n <= |columns| == |values|
  {
    forall i :: 0 <= i < n && NamesRow(columns[i]) ==> ToRowId(values[i]).Ok?
  }

  /** The row the first n columns name, if they name one. */
  ghost predicate RowGiven(columns: seq<string>, values: seq<SqlValue>, n: nat, row: Option<RowId>)
    requires n <= |columns| == |values|
  {
    match row
    case None => forall i :: 0 <= i < n ==> !NamesRow(columns[i])
    case Some(id) => exists i :: IsLastId(columns, n, i) && ToRowId(values[i]) == Ok(id)
  }

  ghost predicate Repeated(columns: seq<string>, n: nat, i: nat)
    requires i < n <= |columns|
  {
    exists j :: i < j < n && columns[j] == columns[i]
  }

  /** The first n columns with their values; a repeated column has the value given last. */
  ghost predicate Holds(m: JsonRow, columns: seq<string>, values: seq<SqlValue>, n: nat)
    requires n <= |columns| == |values|
  {
    && (forall c :: c in m ==> exists i :: 0 <= i < n && columns[i] == c)
    && (forall i :: 0 <= i < n ==> columns[i] in m)
    && (forall i :: 0 <= i < n && !Repeated(columns, n, i) ==> m[columns[i]] == ToJson(values[i]))
  }

  /** The first row-naming column that holds no row id. */
  ghost predicate FirstBadId(columns: seq<string>, values: seq<SqlValue>, i: nat)
    requires |columns| == |values|
  {
    i < |columns| && NamesRow(columns[i]) && ToRowId(values[i]).Err? && IdsHold(columns, values, i)
  }

  /** The reason why columns and values give no row. */
  ghost predicate InsertFails(columns: seq<string>, values: seq<SqlValue>, e: SqlError)
    requires |columns| == |values|
  {
    || (e == NoRowId && RowGiven(columns, values, |columns|, None))
    || (e.NotARowId? && exists i: nat :: FirstBadId(columns, values, i) && values[i] == e.value)
  }

  ghost predicate InsertMeans(table: string, columns: seq<string>, values: seq<SqlValue>, r: Parsed<Diff>) {
    if |columns| != |values| then r == Err(CountMismatch)
    else
      match r
      case Ok(d) =>
        && d.Insert? && d.name == table
        && IdsHold(columns, values, |columns|)
        && RowGiven(columns, values, |columns|, Some(d.row))
        && Holds(d.values, columns, values, |columns|)
      case Err(e) => InsertFails(columns, values, e)
  }

  /** The diff a statement stands for, or the reason it stands for none. */
  ghost predicate Means(s: Statement, r: Parsed<Diff>) {
    match s
    case Update(table, column, value, condition) =>
      r == (match ConditionRow(condition)
            case Ok(row) => Ok(Tables.Update(table, row, column, ToJson(value)))
            case Err(e) => Err(e))
    case Delete(table, condition) =>
      r == (match ConditionRow(condition)
            case Ok(row) => Ok(Tables.Delete(table, row))
            case Err(e) => Err(e))
    case Insert(table, columns, values) => InsertMeans(table, columns, values, r)
  }

  lemma HoldsNext(m: JsonRow, columns: seq<string>, values: seq<SqlValue>, n: nat)
    requires n < |columns| == |values| && Holds(m, columns, values, n)
    ensures Holds(m[columns[n] := ToJson(values[n])], columns, values, n + 1)
  {
    var next := m[columns[n] := ToJson(values[n])];
    hide ToJson;
    forall i | 0 <= i < n + 1 && !Repeated(columns, n + 1, i) ensures next[columns[i]] == ToJson(values[i]) {
      LastValueHolds(m, columns, values, n, i);
    }
    hide Repeated;
    forall c | c in next ensures exists i :: 0 <= i < n + 1 && columns[i] == c {
      if c in m {
        var i :| 0 <= i < n && columns[i] == c;
      }
    }
  }

  lemma LastValueHolds(m: JsonRow, columns: seq<string>, values: seq<SqlValue>, n: nat, i: nat)
    requires i <= n < |columns| == |values| && Holds(m, columns, values, n) && !Repeated(columns, n + 1, i)
    ensures columns[i] in m || i == n
    ensures m[columns[n] := ToJson(values[n])][columns[i]] == ToJson(values[i])
  {
    hide ToJson;
    if i < n {
      assert columns[n] != columns[i];
      assert !Repeated(columns, n, i);
    }
  }

  lemma RowGivenNext(columns: seq<string>, values: seq<SqlValue>, n: nat, row: Option<RowId>)
    requires n < |columns| == |values| && RowGiven(columns, values, n, row)
    ensures !NamesRow(columns[n]) ==> RowGiven(columns, values, n + 1, row)
    ensures NamesRow(columns[n]) && ToRowId(values[n]).Ok? ==>
      RowGiven(columns, values, n + 1, Some(ToRowId(values[n]).value))
  {
    hide NamesRow, ToRowId;
    if NamesRow(columns[n]) {
      assert IsLastId(columns, n + 1, n);
    } else if row.Some? {
      var i :| IsLastId(columns, n, i) && ToRowId(values[i]) == Ok(row.value);
      assert IsLastId(columns, n + 1, i);
    }
  }

  method StatementToDiff(s: Statement) returns (r: Parsed<Diff>)
    ensures Means(s, r)
  {
    match s
    case Update(table, column, value, condition) =>
      var row :- ConditionRow(condition);
      r := Ok(Tables.Update(table, row, column, ToJson(value)));
    case Insert(table, columns, values) =>
      r := InsertToDiff(table, columns, values);
    case Delete(table, condition) =>
      var row :- ConditionRow(condition);
      r := Ok(Tables.Delete(table, row));
  }

  method InsertToDiff(table: string, columns: seq<string>, values: seq<SqlValue>) returns (r: Parsed<Diff>)
    ensures InsertMeans(table, columns, values, r)
  {
    if |columns| != |values| {
      MismatchMeans(table, columns, values);
      return Err(CountMismatch);
    }
    var rowId: Option<RowId> := None;
    var valueMap: JsonRow := map[];
    NothingYet(columns, values);
    hide NamesRow, ToJson, Holds, RowGiven, IdsHold, FirstBadId, InsertMeans, ToRowId;
    for i := 0 to |columns|
      invariant IdsHold(columns, values, i)
      invariant RowGiven(columns, values, i, rowId)
      invariant Holds(valueMap, columns, values, i)
    {
      RowGivenNext(columns, values, i, rowId);
      IdsHoldNext(columns, values, i);
      HoldsNext(valueMap, columns, values, i);
      if NamesRow(columns[i]) {
        var row := ToRowId(values[i]);
        if row.Err? {
          BadIdMeans(table, columns, values, i);
          return Err(row.error);
        }
        rowId := Some(row.value);
      }
      valueMap := valueMap[columns[i] := ToJson(values[i])];
    }
    if rowId.None? {
      NoIdMeans(table, columns, values);
      return Err(NoRowId);
    }
    IdMeans(table, columns, values, rowId.value, valueMap);
    r := Ok(Tables.Insert(table, rowId.value, valueMap));
  }

  lemma NothingYet(columns: seq<string>, values: seq<SqlValue>)
    requires |columns| == |values|
    ensures RowGiven(columns, values, 0, None) && IdsHold(columns, values, 0) && Holds(map[], columns, values, 0)
  {
  }

  lemma IdsHoldNext(columns: seq<string>, values: seq<SqlValue>, n: nat)
    requires n < |columns| == |values| && IdsHold(columns, values, n)
    ensures !NamesRow(columns[n]) || ToRowId(values[n]).Ok? ==> IdsHold(columns, values, n + 1)
  {
  }

  lemma MismatchMeans(table: string, columns: seq<string>, values: seq<SqlValue>)
    requires |columns| != |values|
    ensures InsertMeans(table, columns, values, Err(CountMismatch))
  {
  }

  lemma BadIdMeans(table: string, columns: seq<string>, values: seq<SqlValue>, i: nat)
    requires i < |columns| == |values| && NamesRow(columns[i]) && ToRowId(values[i]).Err? && IdsHold(columns, values, i)
    ensures InsertMeans(table, columns, values, Err(ToRowId(values[i]).error))
  {
    assert FirstBadId(columns, values, i);
  }

  lemma NoIdMeans(table: string, columns: seq<string>, values: seq<SqlValue>)
    requires |columns| == |values| && RowGiven(columns, values, |columns|, None)
    ensures InsertMeans(table, columns, values, Err(NoRowId))
  {
  }

  lemma IdMeans(table: string, columns: seq<string>, values: seq<SqlValue>, row: RowId, m: JsonRow)
    requires |columns| == |values| && RowGiven(columns, values, |columns|, Some(row))
    requires IdsHold(columns, values, |columns|) && Holds(m, columns, values, |columns|)
    ensures InsertMeans(table, columns, values, Ok(Tables.Insert(table, row, m)))
  {
  }

  // ---------------------------------------------------------------- the meaning is unique

  lemma {:induction false} LastOccurrence(columns: seq<string>, n: nat, i: nat) returns (j: nat)
    requires i < n <= |columns|
    ensures j < n && columns[j] == columns[i] && !Repeated(columns, n, j)
    decreases n - i
  {
    if Repeated(columns, n, i) {
      var k :| i < k < n && columns[k] == columns[i];
      j := LastOccurrence(columns, n, k);
    } else {
      j := i;
    }
  }

  lemma HoldsOnce(m: JsonRow, m': JsonRow, columns: seq<string>, values: seq<SqlValue>)
    requires |columns| == |values| && Holds(m, columns, values, |columns|) && Holds(m', columns, values, |columns|)
    ensures m == m'
  {
    forall c | c in m ensures c in m' && m'[c] == m[c] {
      var i :| 0 <= i < |columns| && columns[i] == c;
      var j := LastOccurrence(columns, |columns|, i);
      assert m[columns[j]] == m'[columns[j]];
    }
    forall c | c in m' ensures c in m {
      var i :| 0 <= i < |columns| && columns[i] == c;
    }
    assert m.Keys == m'.Keys;
  }

  lemma RowGivenOnce(columns: seq<string>, values: seq<SqlValue>, n: nat, row: Option<RowId>, row': Option<RowId>)
    requires n <= |columns| == |values| && RowGiven(columns, values, n, row) && RowGiven(columns, values, n, row')
    ensures row == row'
  {
    if row.Some? && row'.Some? {
      var i :| IsLastId(columns, n, i) && ToRowId(values[i]) == Ok(row.value);
      var j :| IsLastId(columns, n, j) && ToRowId(values[j]) == Ok(row'.value);
      assert i == j;
    }
  }

  /** A statement stands for one diff, or fails for one reason. */
  lemma MeansOnce(s: Statement, r: Parsed<Diff>, r': Parsed<Diff>)
    requires Means(s, r) && Means(s, r')
    ensures r == r'
  {
    if s.Insert? && |s.columns| == |s.values| {
      InsertMeansOnce(s.table, s.columns, s.values, r, r');
    }
  }

  lemma InsertMeansOnce(table: string, columns: seq<string>, values: seq<SqlValue>, r: Parsed<Diff>, r': Parsed<Diff>)
    requires |columns| == |values| && InsertMeans(table, columns, values, r) && InsertMeans(table, columns, values, r')
    ensures r == r'
  {
    hide NamesRow, ToRowId, Holds;
    if r.Ok? && r'.Ok? {
      HoldsOnce(r.value.values, r'.value.values, columns, values);
      hide RowGiven, IdsHold;
      RowGivenOnce(columns, values, |columns|, Some(r.value.row), Some(r'.value.row));
    } else if r.Err? && r'.Err? {
      ErrorsOnce(columns, values, r.error, r'.error);
    }
  }

  lemma ErrorsOnce(columns: seq<string>, values: seq<SqlValue>, e: SqlError, e': SqlError)
    requires |columns| == |values| && InsertFails(columns, values, e) && InsertFails(columns, values, e')
    ensures e == e'
  {
    hide NamesRow, ToRowId;
  }

  // ---------------------------------------------------------------- diffs written as SQL

  /** The values SQL can write. */
  predicate Writable(j: Json) {
    !j.JOther? && !j.JFloat? && (j.JInt? ==> FitsI64(j.n))
  }

  function FromJson(j: Json): (v: SqlValue)
    requires Writable(j)
    ensures ToJson(v) == j && IsValue(v)
  {
    match j
    case JNull => Null
    case JBool(b) => SqlValue.Boolean(b)
    case JInt(n) => Integer(n)
    case JString(s) => String(s)
  }

  function Picking(idColumn: string, row: RowId): Condition
    requires row <= I64_MAX
  {
    Condition(idColumn, Eq, Integer(row))
  }

  /** An update of one row, picked by an id column, comes back from its SQL. */
  lemma UpdateRoundTrip(table: string, row: RowId, column: string, value: Json, idColumn: string, r: Parsed<Diff>)
    requires IsIdentifier(table) && IsIdentifier(column) && Writable(value) && row <= I64_MAX
    requires IsIdentifier(idColumn) && PicksRow(idColumn)
    requires Means(Update(table, column, FromJson(value), Picking(idColumn, row)), r)
    ensures ReadStatement(Render(Update(table, column, FromJson(value), Picking(idColumn, row)))) ==
            Ok(Update(table, column, FromJson(value), Picking(idColumn, row)))
    ensures r == Ok(Tables.Update(table, row, column, value))
  {
    hide ReadStatement, Render, PicksRow, IsIdentifier;
    RoundTrip(Update(table, column, FromJson(value), Picking(idColumn, row)));
  }

  lemma DeleteRoundTrip(table: string, row: RowId, idColumn: string, r: Parsed<Diff>)
    requires IsIdentifier(table) && IsIdentifier(idColumn) && PicksRow(idColumn) && row <= I64_MAX
    requires Means(Delete(table, Picking(idColumn, row)), r)
    ensures ReadStatement(Render(Delete(table, Picking(idColumn, row)))) == Ok(Delete(table, Picking(idColumn, row)))
    ensures r == Ok(Tables.Delete(table, row))
  {
    hide ReadStatement, Render, PicksRow, IsIdentifier;
    RoundTrip(Delete(table, Picking(idColumn, row)));
  }

  /** The columns of a row, each once, in some order. */
  predicate Lists(columns: seq<string>, m: JsonRow) {
    && (forall c :: c in m ==> c in columns) && (forall c :: c in columns ==> c in m)
    && (forall i, j :: 0 <= i < j < |columns| ==> columns[i] != columns[j])
    && (forall c :: c in m ==> IsIdentifier(c) && Writable(m[c]))
  }

  function InsertOf(table: string, columns: seq<string>, m: JsonRow): (s: Statement)
    requires Lists(columns, m)
    ensures s.Insert? && s.table == table && s.columns == columns && |s.values| == |columns|
    ensures forall i :: 0 <= i < |columns| ==> ToJson(s.values[i]) == m[columns[i]] && IsValue(s.values[i])
  {
    Insert(table, columns, seq(|columns|, (i: nat) requires i < |columns| => FromJson(m[columns[i]])))
  }

  /** A row id in JSON. */
  predicate IsRowId(j: Json) {
    j.JInt? && j.n >= 0
  }

  /** An inserted row, with its columns in any order, comes back from its SQL exactly when the last row-naming column
      holds the row's id and every other one some row id. */
  lemma InsertRoundTripIff(table: string, row: RowId, m: JsonRow, columns: seq<string>)
    requires IsIdentifier(table) && Lists(columns, m)
    ensures ReadStatement(Render(InsertOf(table, columns, m))) == Ok(InsertOf(table, columns, m))
    ensures Means(InsertOf(table, columns, m), Ok(Tables.Insert(table, row, m))) <==>
      ((exists i :: IsLastId(columns, |columns|, i) && m[columns[i]] == JInt(row)) &&
       (forall c :: c in m && NamesRow(c) ==> IsRowId(m[c])))
  {
    InsertReadsBack(table, m, columns);
    InsertMeansIff(table, row, m, columns, InsertOf(table, columns, m).values);
    hide ReadStatement, Render, NamesRow, IsIdentifier, InsertMeans;
  }

  lemma InsertReadsBack(table: string, m: JsonRow, columns: seq<string>)
    requires IsIdentifier(table) && Lists(columns, m)
    ensures ReadStatement(Render(InsertOf(table, columns, m))) == Ok(InsertOf(table, columns, m))
  {
    var s := InsertOf(table, columns, m);
    hide ReadStatement, Render, IsIdentifier, InsertOf, FromJson, Writable, IsValue;
    assert IsStatement(s);
    RoundTrip(s);
  }

  lemma InsertMeansIff(table: string, row: RowId, m: JsonRow, columns: seq<string>, values: seq<SqlValue>)
    requires Lists(columns, m) && |values| == |columns|
    requires forall i :: 0 <= i < |columns| ==> ToJson(values[i]) == m[columns[i]]
    ensures InsertMeans(table, columns, values, Ok(Tables.Insert(table, row, m))) <==>
      ((exists i :: IsLastId(columns, |columns|, i) && m[columns[i]] == JInt(row)) &&
       (forall c :: c in m && NamesRow(c) ==> IsRowId(m[c])))
  {
    hide NamesRow, IsIdentifier, Writable, Holds, IdsHold;
    HoldsListed(columns, values, m);
    IdsHoldListed(columns, values, m);
    forall i | IsLastId(columns, |columns|, i) ensures ToRowId(values[i]) == Ok(row) <==> m[columns[i]] == JInt(row) {
      assert columns[i] in columns;
    }
    hide Lists;
  }

  lemma HoldsListed(columns: seq<string>, values: seq<SqlValue>, m: JsonRow)
    requires Lists(columns, m) && |values| == |columns|
    requires forall i :: 0 <= i < |columns| ==> ToJson(values[i]) == m[columns[i]]
    ensures Holds(m, columns, values, |columns|)
  {
    forall i | 0 <= i < |columns| ensures columns[i] in m {
      assert columns[i] in columns;
    }
  }

  lemma IdsHoldListed(columns: seq<string>, values: seq<SqlValue>, m: JsonRow)
    requires Lists(columns, m) && |values| == |columns|
    requires forall i :: 0 <= i < |columns| ==> ToJson(values[i]) == m[columns[i]]
    ensures IdsHold(columns, values, |columns|) <==> forall c :: c in m && NamesRow(c) ==> IsRowId(m[c])
  {
    hide NamesRow, IsIdentifier;
    forall i | 0 <= i < |columns| ensures columns[i] in m && (ToRowId(values[i]).Ok? <==> IsRowId(m[columns[i]])) {
      assert columns[i] in columns;
    }
  }

  /** A condition picks a row exactly if it equates a row-picking column with a number that is no less than zero;
      which of the three it fails to do first is its error. */
  lemma ConditionRowIff(c: Condition, row: RowId)
    ensures ConditionRow(c) == Ok(row) <==>
      c.operator == Eq && PicksRow(c.column) && c.value.Integer? && c.value.i == row
    ensures ConditionRow(c) == Err(NotAnEquality) <==> c.operator != Eq
    ensures ConditionRow(c) == Err(NotAnIdColumn(c.column)) <==> c.operator == Eq && !PicksRow(c.column)
    ensures ConditionRow(c) == Err(NotARowId(c.value)) <==>
      c.operator == Eq && PicksRow(c.column) && !(c.value.Integer? && c.value.i >= 0)
  {
    hide PicksRow;
  }

  /** The columns that name an inserted row and those that pick one, in letters of either case. */
  lemma RowColumns(column: string)
    ensures NamesRow(column) <==> Upper(column) in {"ROW_ID", "ID", "ACTOR_ID"}
    ensures PicksRow(column) <==> Upper(column) == "ID" || (|column| >= 3 && Upper(column)[|column| - 3..] == "_ID")
    ensures forall i :: 0 <= i < |column| ==> Upper(column)[i] == ToUpper(column[i])
  {
    UpperNames();
    UpperAt(column);
    hide Upper;
    if Upper(column) == "ROW_ID" {
      assert Upper(column)[|column| - 3..] == "_ID";
    }
  }

  /** A JSON value as SQL writes it. */
  function SqlText(j: Json): string
    requires Writable(j)
  {
    match j
    case JNull => "NULL"
    case JBool(b) => if b then "TRUE" else "FALSE"
    case JInt(n) => SignedDecimal(n)
    case JString(s) => Quoted('\'', s)
  }

  /** A value written in SQL comes back as the same JSON. */
  lemma JsonRoundTrip(j: Json)
    requires Writable(j)
    ensures ReadValue(SqlText(j)).Read? && ReadValue(SqlText(j)).rest == ""
    ensures ToJson(ReadValue(SqlText(j)).value) == j
  {
    var v := FromJson(j);
    var text := ValueText(v);
    assert text == SqlText(j);
    ValueSolid(v);
    assert text + "" == text;
    hide ValueText, ReadValue, FromJson;
    ValueReads(v, text, "");
  }

  lemma UpperNames()
    ensures Upper("_id") == "_ID" && Upper("id") == "ID" && Upper("row_id") == "ROW_ID" &&
      Upper("actor_id") == "ACTOR_ID"
    ensures Upper("province_id") == "PROVINCE_ID"
  {
    UpperAt("_id");
    UpperAt("id");
    UpperAt("row_id");
    UpperAt("actor_id");
    UpperAt("province_id");
    hide Upper;
  }

  /** Every column that names an inserted row also picks one; not the other way round, so a row can be updated by a key
      it cannot be inserted with. */
  lemma PickingIsWider(table: string, n: i64, r: Parsed<Diff>)
    requires Means(Insert(table, ["province_id"], [Integer(n)]), r)
    ensures forall c :: NamesRow(c) ==> PicksRow(c)
    ensures PicksRow("province_id") && r == Err(NoRowId)
  {
    UpperNames();
    hide Upper;
    assert !NamesRow("province_id");
    assert EndsWith("PROVINCE_ID", "_ID") && EndsWith("ROW_ID", "_ID") && EndsWith("ACTOR_ID", "_ID");
  }
}
