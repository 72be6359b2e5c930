/** What tables store for JSON values, told by reading the cells back as JSON: which values a column takes, which rows a
    table takes, and what an update, an insert, a delete and a replacement leave in the table. */
module StoredValues {
  import opened Machine
  import opened Texts
  import opened Columns
  import opened Batches
  import opened KeyIndexes
  import opened Tables
  import opened TableRefinement
  import opened TableIndexes

  // ---------------------------------------------------------------- one cell

  /** A cell read back as JSON. */
  function JsonOf(cell: Option<Cell>): Json {
    match cell
    case None => JNull
    case Some(Number(n)) => JInt(n)
    case Some(Flag(b)) => JBool(b)
    case Some(Text(s)) => JString(s)
  }

  /** The integers an integer column takes; those just above i64 become its maximum. */
  predicate TakesInteger(dtype: DataType, n: int) {
    match dtype
    case Int64 => I64_MIN <= n <= I64_MAX + 1025
    case Int32 => -2147483648 <= n <= 2147483647
    case UInt64 => 0 <= n <= U64_MAX
    case _ => false
  }

  /** Signed columns take a double by its whole part; unsigned ones take only whole doubles. */
  predicate TakesDouble(dtype: DataType, x: real) {
    match dtype
    case Int64 => -9223372036854775808.0 <= x <= 9223372036854775808.0
    case Int32 => -2147483649.0 < x < 2147483648.0
    case UInt64 => 0.0 <= x < 18446744073709551616.0 && x == x.Floor as real
    case _ => false
  }

  /** Exactly the values a column takes. */
  predicate Takes(dtype: DataType, v: Json) {
    match v
    case JNull => dtype != Unregistered
    case JBool(_) => dtype == Boolean
    case JString(_) => dtype == Utf8
    case JInt(n) => TakesInteger(dtype, n)
    case JFloat(x, _) => TakesDouble(dtype, x)
    case JOther(_) => false
  }

  /** The cell stands for the value: it reads back as the value itself, except that a double loses its fraction, and
      that nothing reads back above the maximum of i64 in a signed column. */
  predicate StandsFor(dtype: DataType, v: Json, cell: Option<Cell>) {
    match v
    case JInt(n) => JsonOf(cell) == JInt(Capped(dtype, n))
    case JFloat(x, _) => JsonOf(cell) == JInt(Capped(dtype, WholePart(x)))
    case _ => JsonOf(cell) == v
  }

  function Capped(dtype: DataType, n: int): int {
    if dtype == Int64 && n > I64_MAX then I64_MAX else n
  }

  /** The integer between a number and zero that is nearest to the number. */
  function WholePart(x: real): int {
    if x < 0.0 then -(-x).Floor else x.Floor
  }

  /** A column takes exactly these values, and stores a cell that stands for the value. */
  lemma ConvertIff(v: Json, dtype: DataType)
    ensures Convert(v, dtype).Some? <==> Takes(dtype, v)
    ensures Convert(v, dtype).Some? ==> StandsFor(dtype, v, Convert(v, dtype).value)
    ensures Convert(v, dtype).Some? ==> (Convert(v, dtype).value.None? <==> v == JNull)
  {
  }

  /** Of the values that are no doubles every one a column takes reads back as itself, exactly unless it is an integer
      above i64 in a signed column. */
  lemma ReadsBackIff(v: Json, dtype: DataType)
    requires !v.JFloat? && Takes(dtype, v)
    ensures Convert(v, dtype).Some?
    ensures JsonOf(Convert(v, dtype).value) == v <==> !(v.JInt? && dtype == Int64 && v.n > I64_MAX)
  {
  }

  /** No two cells stand for one value. */
  lemma StandsForOnce(v: Json, dtype: DataType, cell: Option<Cell>)
    requires Takes(dtype, v)
    ensures StandsFor(dtype, v, cell) <==> Convert(v, dtype) == Some(cell)
  {
    ConvertIff(v, dtype);
  }

  // ---------------------------------------------------------------- one row

  /** The value given for a column; a column left out is given null. */
  function Given(values: JsonRow, name: string): Json {
    if name in values then values[name] else JNull
  }

  predicate FieldTakes(field: Field, v: Json) {
    Takes(field.dtype, v) && (field.nullable || v != JNull)
  }

  /** The rows a schema takes: it has a column, and every column takes what it is given. */
  predicate RowTaken(fields: seq<Field>, values: JsonRow) {
    fields != [] && forall c :: 0 <= c < |fields| ==> FieldTakes(fields[c], Given(values, fields[c].name))
  }

  /** The row stands for the given values, column by column. */
  predicate RowStandsFor(fields: seq<Field>, values: JsonRow, row: Row) {
    |row| == |fields| &&
    forall c :: 0 <= c < |row| ==> StandsFor(fields[c].dtype, Given(values, fields[c].name), row[c])
  }

  lemma AbsRowIff(spec: TableSpec, values: JsonRow, row: Row)
    ensures AbsRow(spec, values).Some? <==> RowTaken(spec.fields, values)
    ensures AbsRow(spec, values) == Some(row) <==>
      RowTaken(spec.fields, values) && RowStandsFor(spec.fields, values, row)
  {
    var fields := spec.fields;
    forall c | 0 <= c < |fields|
      ensures FieldValue(values, fields[c]) == Given(values, fields[c].name)
      ensures ConvertedCell(fields[c], Given(values, fields[c].name))
    {
      FieldConverts(fields[c], Given(values, fields[c].name));
    }
    hide Takes, StandsFor, Convert, FieldValue, Given;
    if AbsRow(spec, values).Some? && RowStandsFor(fields, values, row) {
      assert row == AbsRow(spec, values).value;
    }
  }

  /** What a field makes of a value, in both ways of telling it. */
  ghost predicate ConvertedCell(field: Field, v: Json) {
    && (Convert(v, field.dtype).Some? <==> Takes(field.dtype, v))
    && (Convert(v, field.dtype).Some? ==> (Convert(v, field.dtype).value.None? <==> v == JNull))
    && forall cell :: Takes(field.dtype, v) ==>
         (StandsFor(field.dtype, v, cell) <==> Convert(v, field.dtype) == Some(cell))
  }

  lemma FieldConverts(field: Field, v: Json)
    ensures ConvertedCell(field, v)
  {
    ConvertIff(v, field.dtype);
    forall cell | Takes(field.dtype, v)
      ensures StandsFor(field.dtype, v, cell) <==> Convert(v, field.dtype) == Some(cell)
    {
      StandsForOnce(v, field.dtype, cell);
    }
  }

  // ---------------------------------------------------------------- updates

  /** The column of a name is the first one that has it. */
  predicate IsColumn(fields: seq<Field>, name: string, c: int) {
    0 <= c < |fields| && fields[c].name == name && forall j :: 0 <= j < c ==> fields[j].name != name
  }

  lemma {:induction false} ColumnIndexIff(fields: seq<Field>, name: string, c: nat)
    ensures ColumnIndex(fields, name) == Some(c) <==> IsColumn(fields, name, c)
  {
    if fields != [] && fields[0].name != name {
      if c > 0 {
        ColumnIndexIff(fields[1..], name, c - 1);
      }
      assert forall j :: 0 < j < |fields| ==> fields[j] == fields[1..][j - 1];
    }
  }

  /** There is such a column, and it takes the value. */
  ghost predicate ColumnTakes(fields: seq<Field>, name: string, v: Json) {
    exists c :: IsColumn(fields, name, c) && FieldTakes(fields[c], v)
  }

  /** One cell of one row stands for a value; nothing else has changed. */
  ghost predicate CellSet(fields: seq<Field>, rows: Rows, after: Rows, row: RowId, c: int, v: Json) {
    && row in rows && after.Keys == rows.Keys
    && (forall r :: r in rows && r != row ==> after[r] == rows[r])
    && |after[row]| == |rows[row]| == |fields| && 0 <= c < |fields|
    && (forall k :: 0 <= k < |fields| && k != c ==> after[row][k] == rows[row][k])
    && StandsFor(fields[c].dtype, v, after[row][c])
  }

  /** An update succeeds exactly if the row is there and the column takes the value, and then the cell stands for it.
      Otherwise it says which of the two is missing and changes nothing. */
  lemma UpdateStores(t: Table, tick: Tick, d: Diff)
    requires Inv(t) && d.Update?
    ensures var o := ApplyDiff(t, tick, d);
      && (o.error.None? <==> d.row in t.positions && ColumnTakes(t.spec.fields, d.column, d.value))
      && (o.error == Some(RowNotFound(d.row)) <==> d.row !in t.positions)
      && (o.error == Some(SchemaError) <==> d.row in t.positions && !ColumnTakes(t.spec.fields, d.column, d.value))
      && (o.error.Some? ==> o.table == t)
      && (o.error.None? ==> Inv(o.table))
      && forall c :: o.error.None? && IsColumn(t.spec.fields, d.column, c) ==>
           CellSet(t.spec.fields, AbsRows(t), AbsRows(o.table), d.row, c, d.value)
  {
    UpdateRefines(t, tick, d);
    UpdateErrors(t, tick, d);
    AbsRowsAt(t);
    RowLengths(t);
    AbsUpdateStores(t.spec, AbsRows(t), d.row, d.column, d.value);
    hide ApplyDiff, Inv, AbsRows, AbsUpdate, ColumnTakes, CellSet, IsColumn;
  }

  lemma RowLengths(t: Table)
    requires Inv(t)
    ensures forall r :: r in AbsRows(t) ==> |AbsRows(t)[r]| == |t.spec.fields|
  {
    AbsRowsAt(t);
    hide LocTick, AbsRows;
  }

  lemma UpdateErrors(t: Table, tick: Tick, d: Diff)
    requires Inv(t) && d.Update?
    ensures d.row !in t.positions ==> ApplyDiff(t, tick, d).error == Some(RowNotFound(d.row))
    ensures d.row in t.positions && ApplyDiff(t, tick, d).error.Some? ==>
      ApplyDiff(t, tick, d).error == Some(SchemaError)
  {
    hide UpdatePatch, LocTick, WellFormed;
  }

  lemma AbsUpdateStores(spec: TableSpec, rows: Rows, row: RowId, column: string, v: Json)
    requires forall r :: r in rows ==> |rows[r]| == |spec.fields|
    ensures AbsUpdate(spec, rows, row, column, v).Some? <==> row in rows && ColumnTakes(spec.fields, column, v)
    ensures forall c :: AbsUpdate(spec, rows, row, column, v).Some? && IsColumn(spec.fields, column, c) ==>
      CellSet(spec.fields, rows, AbsUpdate(spec, rows, row, column, v).value, row, c, v)
  {
    var column' := ColumnIndex(spec.fields, column);
    if column'.Some? {
      ColumnIndexIff(spec.fields, column, column'.value);
      FieldConverts(spec.fields[column'.value], v);
    }
    forall c: nat | IsColumn(spec.fields, column, c) ensures column' == Some(c) {
      ColumnIndexIff(spec.fields, column, c);
    }
    hide Takes, StandsFor, Convert, ColumnIndex;
  }

  /** Which of the three faults keeps a row from being found, in a table in any state. */
  lemma LocateErrors(t: Table, row: RowId)
    ensures var e := LocateError(t, row);
      && (e == Some(RowNotFound(row)) <==> row !in t.positions)
      && (e == Some(NoTickForBatch) <==>
            row in t.positions && forall u :: u in t.versions ==> |t.versions[u]| <= t.positions[row].0)
      && (e == Some(OffsetOutOfRange) <==>
            row in t.positions &&
            exists u :: IsLastWith(t.versions, t.positions[row].0, u)
                     && NumRows(t.versions[u][t.positions[row].0]) <= t.positions[row].1)
  {
    if row in t.positions {
      var b := t.positions[row].0;
      assert forall u :: u in TicksWith(t.versions, b) <==> u in t.versions && |t.versions[u]| > b;
      if LocTick(t.versions, b).Some? {
        assert IsLastWith(t.versions, b, LocTick(t.versions, b).value);
      }
      assert forall u: Tick :: IsLastWith(t.versions, b, u) ==> LocTick(t.versions, b) == Some(u);
      hide LocTick, TicksWith;
    }
  }

  /** The latest tick with a batch of this index. */
  predicate IsLastWith(versions: Versions, b: nat, u: Tick) {
    u in versions && |versions[u]| > b && forall v :: v in versions && |versions[v]| > b ==> v <= u
  }

  // ---------------------------------------------------------------- inserts

  /** Every column's type is a registered one. */
  predicate AllRegistered(fields: seq<Field>) {
    forall c :: 0 <= c < |fields| ==> fields[c].dtype != Unregistered
  }

  /** An insert succeeds exactly if the schema resolves, the row is new and the schema takes the values, and a safe one
      leaves a row that stands for them beside the old rows. */
  lemma InsertStores(t: Table, tick: Tick, d: Diff)
    requires Inv(t) && d.Insert? && InsertSafe(t, tick)
    ensures var o := ApplyDiff(t, tick, d);
      && (o.error.None? <==> AllRegistered(t.spec.fields) && d.row !in t.positions && RowTaken(t.spec.fields, d.values))
      && (o.error == Some(DuplicateRowId(d.row)) <==> AllRegistered(t.spec.fields) && d.row in t.positions)
      && (o.error.None? || o.error == Some(DuplicateRowId(d.row)) || o.error == Some(SchemaError))
      && (o.error.Some? ==> o.table == t)
      && (o.error.None? ==> Inv(o.table) && d.row in AbsRows(o.table))
      && (o.error.None? ==> AbsRows(o.table) - {d.row} == AbsRows(t))
      && (o.error.None? ==> RowStandsFor(t.spec.fields, d.values, AbsRows(o.table)[d.row]))
  {
    InsertRefines(t, tick, d);
    InsertErrors(t, tick, d);
    AbsRowsAt(t);
    AbsInsertStores(t.spec, AbsRows(t), d.row, d.values);
    hide ApplyDiff, Inv, AbsRows, AbsInsert, InsertSafe, RowTaken, RowStandsFor, AllRegistered;
  }

  lemma AbsInsertStores(spec: TableSpec, rows: Rows, row: RowId, values: JsonRow)
    ensures var after := AbsInsert(spec, rows, row, values);
      && (after.Some? <==> AllRegistered(spec.fields) && row !in rows && RowTaken(spec.fields, values))
      && (after.Some? ==> row in after.value && after.value - {row} == rows)
      && (after.Some? ==> RowStandsFor(spec.fields, values, after.value[row]))
  {
    var cells := AbsRow(spec, values);
    AbsRowIff(spec, values, if cells.Some? then cells.value else []);
    hide AbsRow, RowTaken, RowStandsFor;
    if cells.Some? && row !in rows {
      assert rows[row := cells.value] - {row} == rows;
    }
  }

  lemma InsertErrors(t: Table, tick: Tick, d: Diff)
    requires Inv(t) && d.Insert?
    ensures var o := ApplyDiff(t, tick, d);
      && (o.error == Some(DuplicateRowId(d.row)) <==> AllRegistered(t.spec.fields) && d.row in t.positions)
      && (o.error.None? || o.error == Some(DuplicateRowId(d.row)) || o.error == Some(SchemaError))
  {
    hide RowToBatch, Inv;
  }

  // ---------------------------------------------------------------- deletes

  /** A delete also wipes the row's cells where it lay: what a nullable column held is gone, the rest stays. */
  lemma DeleteWipes(t: Table, tick: Tick, d: Diff)
    requires Inv(t) && d.Delete? && d.row in t.positions
    ensures var after := ApplyDiff(t, tick, d).table;
      var p := t.positions[d.row];
      && BatchesWellFormed(after.versions) && Located(after.versions, p)
      && forall c :: 0 <= c < |t.spec.fields| ==>
           |RowOf(after.versions, p)| == |RowOf(t.versions, p)| == |t.spec.fields| &&
           RowOf(after.versions, p)[c] == if t.spec.fields[c].nullable then None else RowOf(t.versions, p)[c]
  {
    var p := t.positions[d.row];
    var batch := BatchOf(t.versions, p);
    PatchInPlace(t.versions, p, NullPatch(batch, p.1));
    hide PatchVersions, NullPatch, LocTick, SameShape;
  }

  // ---------------------------------------------------------------- replacements

  /** A text of decimal digits, with or without a plus sign, as the id it spells. */
  ghost predicate Spells(s: string, id: RowId) {
    exists digits :: IsNumeral(digits, id) && (s == digits || s == "+" + digits)
  }

  predicate IsNumeral(digits: string, id: RowId) {
    digits != "" && AllDigits(digits) && Digits(digits) == id
  }

  /** The id of the i-th row of a replacement: its primary key, a number or its digits, or else its place. */
  ghost predicate IdGiven(spec: TableSpec, values: JsonRow, i: int, id: RowId) {
    match spec.primaryKey
    case None => id == i
    case Some(name) =>
      name in values && (values[name] == JInt(id) || (values[name].JString? && Spells(values[name].s, id)))
  }

  lemma SpellsIff(s: string, id: RowId)
    ensures Spells(s, id) <==> ParseInteger(s, 0, U64_MAX) == Some(id)
  {
    if ParseInteger(s, 0, U64_MAX) == Some(id) {
      var digits := if s[0] == '+' then s[1..] else s;
      assert IsNumeral(digits, id) && (s == digits || s == "+" + digits);
    }
    forall digits | IsNumeral(digits, id) && (s == digits || s == "+" + digits)
      ensures ParseInteger(s, 0, U64_MAX) == Some(id)
    {
      assert IsDigit(digits[0]);
      assert ("+" + digits)[1..] == digits;
    }
  }

  lemma ReplaceIdIff(spec: TableSpec, values: JsonRow, i: nat, id: RowId)
    ensures ReplaceId(spec, values, i) == Some(id) <==> IdGiven(spec, values, i, id)
  {
    if spec.primaryKey.Some? && spec.primaryKey.value in values && values[spec.primaryKey.value].JString? {
      SpellsIff(values[spec.primaryKey.value].s, id);
    }
    hide ParseInteger, Spells;
  }

  /** The rows are what the first values stand for, each under its own id, and nothing else. */
  ghost predicate Replaces(spec: TableSpec, jsonRows: seq<JsonRow>, ids: seq<RowId>, rows: Rows)
    requires |ids| <= |jsonRows|
  {
    && (forall i, j :: 0 <= i < j < |ids| ==> ids[i] != ids[j])
    && (forall id :: id in rows <==> id in ids)
    && forall i :: 0 <= i < |ids| ==> RowReplaces(spec, jsonRows[i], i, ids[i], rows)
  }

  ghost predicate RowReplaces(spec: TableSpec, values: JsonRow, i: int, id: RowId, rows: Rows) {
    && IdGiven(spec, values, i, id) && RowTaken(spec.fields, values)
    && id in rows && RowStandsFor(spec.fields, values, rows[id])
  }

  lemma {:induction false} AbsReplaces(spec: TableSpec, jsonRows: seq<JsonRow>, n: nat) returns (ids: seq<RowId>)
    requires n <= |jsonRows| && AbsReplace(spec, jsonRows, n).Some?
    ensures |ids| == n && Replaces(spec, jsonRows, ids, AbsReplace(spec, jsonRows, n).value)
  {
    hide RowTaken, RowStandsFor, IdGiven, AbsRow, ReplaceId;
    ids := [];
    if n > 0 {
      var rows := AbsReplace(spec, jsonRows, n).value;
      var id := ReplaceId(spec, jsonRows[n - 1], n - 1).value;
      ids := AbsReplaces(spec, jsonRows, n - 1);
      AbsRowIff(spec, jsonRows[n - 1], rows[id]);
      ReplaceIdIff(spec, jsonRows[n - 1], n - 1, id);
      assert id !in ids;
      ids := ids + [id];
    }
  }

  lemma {:induction false} ReplacesAbs(spec: TableSpec, jsonRows: seq<JsonRow>, ids: seq<RowId>, rows: Rows)
    requires |ids| <= |jsonRows| && Replaces(spec, jsonRows, ids, rows)
    ensures AbsReplace(spec, jsonRows, |ids|) == Some(rows)
  {
    hide RowTaken, RowStandsFor, IdGiven, AbsRow, ReplaceId;
    if ids == [] {
      assert rows == map[];
    } else {
      var n := |ids| - 1;
      var id := ids[n];
      assert RowReplaces(spec, jsonRows[n], n, id, rows);
      AllButLast(spec, jsonRows, ids, rows);
      hide Replaces, RowReplaces, AbsReplace;
      ReplacesAbs(spec, jsonRows, ids[..n], rows - {id});
      LastReplaces(spec, jsonRows, n, id, rows);
    }
  }

  lemma LastReplaces(spec: TableSpec, jsonRows: seq<JsonRow>, n: nat, id: RowId, rows: Rows)
    requires n < |jsonRows| && RowReplaces(spec, jsonRows[n], n, id, rows)
    requires AbsReplace(spec, jsonRows, n) == Some(rows - {id})
    ensures AbsReplace(spec, jsonRows, n + 1) == Some(rows)
  {
    AbsRowIff(spec, jsonRows[n], rows[id]);
    ReplaceIdIff(spec, jsonRows[n], n, id);
    hide RowTaken, RowStandsFor, IdGiven, AbsRow, ReplaceId;
    assert rows == (rows - {id})[id := rows[id]];
  }

  lemma ResolvesIff(spec: TableSpec)
    ensures SchemaResolves(spec) <==> AllRegistered(spec.fields)
  {
  }

  lemma AllButLast(spec: TableSpec, jsonRows: seq<JsonRow>, ids: seq<RowId>, rows: Rows)
    requires ids != [] && |ids| <= |jsonRows| && Replaces(spec, jsonRows, ids, rows)
    ensures Replaces(spec, jsonRows, ids[..|ids| - 1], rows - {ids[|ids| - 1]})
    ensures ids[|ids| - 1] !in ids[..|ids| - 1]
  {
    hide RowTaken, RowStandsFor, IdGiven;
    var n := |ids| - 1;
    assert ids == ids[..n] + [ids[n]];
    forall i | 0 <= i < n ensures RowReplaces(spec, jsonRows[i], i, ids[..n][i], rows - {ids[n]}) {
      assert RowReplaces(spec, jsonRows[i], i, ids[i], rows);
    }
  }

  /** A safe replacement succeeds exactly if it has rows, the schema resolves and takes each of them, and each has an id
      of its own; it leaves exactly rows that stand for them, each under its id. */
  lemma ReplaceStores(t: Table, tick: Tick, d: Diff, rows: Rows)
    requires Inv(t) && d.ReplaceTable? && ReplaceSafe(t, tick)
    ensures var o := ApplyDiff(t, tick, d);
      && (o.error.None? ==> Inv(o.table))
      && (o.error.None? && AbsRows(o.table) == rows <==>
            d.rows != [] && AllRegistered(t.spec.fields) &&
            exists ids :: |ids| == |d.rows| && Replaces(t.spec, d.rows, ids, rows))
  {
    var n := |d.rows|;
    ReplaceRefines(t, tick, d);
    if AbsReplace(t.spec, d.rows, n) == Some(rows) {
      var ids := AbsReplaces(t.spec, d.rows, n);
    }
    forall ids | |ids| == n && Replaces(t.spec, d.rows, ids, rows) ensures AbsReplace(t.spec, d.rows, n) == Some(rows) {
      ReplacesAbs(t.spec, d.rows, ids, rows);
    }
    ResolvesIff(t.spec);
    hide ApplyDiff, AbsReplace, Inv, AbsRows, Replaces, ReplaceSafe, SchemaResolves, AllRegistered;
  }

  /** The first j rows are fine, and the next one has the id of one of them. */
  ghost predicate Repeats(spec: TableSpec, jsonRows: seq<JsonRow>, j: int, id: RowId) {
    && 0 <= j < |jsonRows| && AbsReplace(spec, jsonRows, j).Some?
    && id in AbsReplace(spec, jsonRows, j).value && IdGiven(spec, jsonRows[j], j, id)
  }

  /** A replacement that fails reports the id of the first row to repeat one, if only good rows come before it;
      otherwise its fault is one of the schema. */
  lemma {:induction false} ReplaceErrors(spec: TableSpec, jsonRows: seq<JsonRow>, n: nat, id: RowId)
    requires n <= |jsonRows|
    ensures var e := ReplaceRows(spec, jsonRows, n).error;
      && (e == Some(DuplicateRowId(id)) <==> exists j :: 0 <= j < n && Repeats(spec, jsonRows, j, id))
      && (e.None? || e.value == SchemaError || e.value.DuplicateRowId?)
  {
    hide AbsReplace, IdGiven, ReplaceOne, Collected;
    if n > 0 {
      var before := ReplaceRows(spec, jsonRows, n - 1);
      ReplaceErrors(spec, jsonRows, n - 1, id);
      ReplaceRowsCollect(spec, jsonRows, n - 1);
      if before.error.None? {
        KnownIds(spec, before, n - 1, AbsReplace(spec, jsonRows, n - 1).value);
        OneErrors(spec, jsonRows[n - 1], n - 1, before, id);
        assert ReplaceRows(spec, jsonRows, n) == ReplaceOne(spec, jsonRows[n - 1], n - 1, before);
        assert Repeats(spec, jsonRows, n - 1, id) <==>
          id in before.positions && IdGiven(spec, jsonRows[n - 1], n - 1, id);
      }
    }
  }

  lemma KnownIds(spec: TableSpec, before: Replacement, n: nat, rows: Rows)
    requires Collected(spec, before, n, rows)
    ensures before.positions.Keys == rows.Keys
    ensures forall k :: k in before.positions && spec.primaryKey.None? ==> k < n
  {
  }

  lemma OneErrors(spec: TableSpec, values: JsonRow, n: nat, before: Replacement, id: RowId)
    requires before.error.None? && forall k :: k in before.positions && spec.primaryKey.None? ==> k < n
    ensures var e := ReplaceOne(spec, values, n, before).error;
      && (e == Some(DuplicateRowId(id)) <==> id in before.positions && IdGiven(spec, values, n, id))
      && (e.None? || e.value == SchemaError || e.value.DuplicateRowId?)
  {
    ReplaceIdIff(spec, values, n, id);
    hide IdGiven, RowToBatch;
  }

  ghost predicate Gives(spec: TableSpec, jsonRows: seq<JsonRow>, i: int, id: RowId) {
    0 <= i < |jsonRows| && IdGiven(spec, jsonRows[i], i, id)
  }

  /** The first row with an id. */
  ghost predicate FirstGives(spec: TableSpec, jsonRows: seq<JsonRow>, i: int, id: RowId) {
    Gives(spec, jsonRows, i, id) && forall j :: 0 <= j < i ==> !Gives(spec, jsonRows, j, id)
  }

  /** The ids of the first rows are there, each at the place of its first row. */
  ghost predicate Placed(spec: TableSpec, jsonRows: seq<JsonRow>, seen: nat, positions: map<RowId, Position>) {
    && (forall i, id :: 0 <= i < seen && Gives(spec, jsonRows, i, id) ==> id in positions)
    && forall id :: id in positions ==>
         positions[id].1 == 0 && positions[id].0 < seen && FirstGives(spec, jsonRows, positions[id].0, id)
  }

  /** The position map a replacement leaves, also when it fails: the ids of every row it has looked at, the faulty one
      included, each at the place of its first row. */
  lemma {:induction false} ReplacePositions(spec: TableSpec, jsonRows: seq<JsonRow>, n: nat) returns (seen: nat)
    requires n <= |jsonRows|
    ensures seen <= n
    ensures var r := ReplaceRows(spec, jsonRows, n);
      && (r.error.None? ==> seen == n)
      && (r.error.Some? ==>
            seen > 0 && AbsReplace(spec, jsonRows, seen - 1).Some? && AbsReplace(spec, jsonRows, seen).None?)
      && Placed(spec, jsonRows, seen, r.positions)
  {
    hide IdGiven, ReplaceOne, AbsReplace, Collected;
    seen := n;
    if n > 0 {
      var before := ReplaceRows(spec, jsonRows, n - 1);
      seen := ReplacePositions(spec, jsonRows, n - 1);
      if before.error.None? {
        ReplaceRowsCollect(spec, jsonRows, n - 1);
        ReplaceRowsCollect(spec, jsonRows, n);
        KnownIds(spec, before, n - 1, AbsReplace(spec, jsonRows, n - 1).value);
        OnePositions(spec, jsonRows[n - 1], n - 1, before);
        seen := n;
        assert ReplaceRows(spec, jsonRows, n) == ReplaceOne(spec, jsonRows[n - 1], n - 1, before);
        OnePlaced(spec, jsonRows, n, before.positions, ReplaceRows(spec, jsonRows, n).positions);
        hide Placed;
      }
    }
  }

  /** The map after one more row: its id, if it has one, is there, and the ids before keep their places. */
  ghost predicate Grown(spec: TableSpec, values: JsonRow, n: nat, before: map<RowId, Position>,
                        after: map<RowId, Position>) {
    && (forall id: RowId :: id in after <==> id in before || IdGiven(spec, values, n, id))
    && (forall id :: id in before ==> after[id] == before[id])
    && forall id :: id in after && id !in before ==> after[id] == (n, 0)
  }

  lemma OnePositions(spec: TableSpec, values: JsonRow, n: nat, before: Replacement)
    requires before.error.None? && (spec.primaryKey.None? ==> forall id :: id in before.positions ==> id < n)
    ensures Grown(spec, values, n, before.positions, ReplaceOne(spec, values, n, before).positions)
  {
    forall id: RowId ensures ReplaceId(spec, values, n) == Some(id) <==> IdGiven(spec, values, n, id) {
      ReplaceIdIff(spec, values, n, id);
    }
    assert spec.primaryKey.None? && ReplaceId(spec, values, n).Some? ==> ReplaceId(spec, values, n).value == n;
    hide IdGiven, ReplaceId, RowToBatch;
  }

  lemma OnePlaced(spec: TableSpec, jsonRows: seq<JsonRow>, n: nat, before: map<RowId, Position>,
                  after: map<RowId, Position>)
    requires 0 < n <= |jsonRows| && Placed(spec, jsonRows, n - 1, before)
    requires Grown(spec, jsonRows[n - 1], n - 1, before, after)
    ensures Placed(spec, jsonRows, n, after)
  {
    hide IdGiven;
    forall id | id in after && id !in before ensures FirstGives(spec, jsonRows, n - 1, id) {
      assert Gives(spec, jsonRows, n - 1, id);
    }
    forall id | Gives(spec, jsonRows, n - 1, id) ensures id in after {
      assert IdGiven(spec, jsonRows[n - 1], n - 1, id);
    }
  }

  // ---------------------------------------------------------------- keys

  /** The text a value is indexed under is the text of its cell, for every value that reads back as itself and is not
      null. A null is indexed under a text that no cell of its row has. */
  lemma KeyTextIsCellText(v: Json, dtype: DataType)
    requires Takes(dtype, v) && !v.JFloat?
    ensures Convert(v, dtype).Some?
    ensures v != JNull && JsonOf(Convert(v, dtype).value) == v ==>
      CellText(Convert(v, dtype).value) == Some(KeyText(v))
    ensures v == JNull ==> KeyText(v) == "null" && CellText(Convert(v, dtype).value) == None
  {
    hide SignedDecimal;
  }
}
