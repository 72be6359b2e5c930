/** One versioned table: batches per tick, a map from row ids to physical positions, and a key index.
    What the four diffs do to it, and when that refines a plain map from row ids to rows. */
module Tables {
  import opened Machine
  import opened Texts
  import opened Columns
  import opened Batches
  import opened KeyIndexes

  /** (batch index, row offset): it does not say in which tick's batches. */
  type Position = (nat, nat)

  type Versions = map<Tick, seq<Batch>>

  datatype TableSpec = TableSpec(fields: seq<Field>, primaryKey: Option<string>)

  datatype Table = Table(spec: TableSpec, versions: Versions, positions: map<RowId, Position>, index: KeyIndex)

  datatype StoreError =
    | TableNotFound(name: string)
    | RowNotFound(row: RowId)
    | NoTickForBatch
    | OffsetOutOfRange
    | SchemaError
    | DuplicateRowId(row: RowId)
    | LifecycleError

  /** The table after a diff, successful or not: a failing diff may leave traces. */
  datatype Outcome = Outcome(table: Table, error: Option<StoreError>)

  datatype Diff =
    | Update(name: string, row: RowId, column: string, value: Json)
    | Insert(name: string, row: RowId, values: JsonRow)
    | Delete(name: string, row: RowId)
    | ReplaceTable(name: string, rows: seq<JsonRow>)

  // ---------------------------------------------------------------- locating a row

  /** The ticks that have a batch of this index. */
  function TicksWith(versions: Versions, batch: nat): set<Tick> {
    set t | t in versions && |versions[t]| > batch
  }

  lemma {:induction false} Greatest(s: set<Tick>) returns (top: Tick)
    requires s != {}
    ensures top in s && forall u :: u in s ==> u <= top
  {
    var x :| x in s;
    top := x;
    var rest := s - {x};
    assert forall u :: u in s ==> u == x || u in rest;
    if rest != {} {
      var t := Greatest(rest);
      if x <= t {
        top := t;
      }
    }
  }

  /** Where a batch index is looked up: the latest tick that has so many batches. */
  function LocTick(versions: Versions, batch: nat): (r: Option<Tick>)
    ensures r.None? <==> TicksWith(versions, batch) == {}
    ensures r.Some? ==> r.value in TicksWith(versions, batch) &&
                        forall t :: t in TicksWith(versions, batch) ==> t <= r.value
  {
    var ticks := TicksWith(versions, batch);
    if ticks == {} then None
    else
      assert exists t :: t in ticks && forall u :: u in ticks ==> u <= t by { var top := Greatest(ticks); }
      var t :| t in ticks && forall u :: u in ticks ==> u <= t;
      Some(t)
  }

  predicate Located(versions: Versions, p: Position) {
    var tick := LocTick(versions, p.0);
    tick.Some? && p.1 < NumRows(versions[tick.value][p.0])
  }

  function BatchOf(versions: Versions, p: Position): Batch
    requires Located(versions, p)
  {
    versions[LocTick(versions, p.0).value][p.0]
  }

  // ---------------------------------------------------------------- the four diffs

  /** Replace one batch by its patched form. */
  function PatchVersions(versions: Versions, tick: Tick, p: Position, patch: Batch): Versions
    requires tick in versions && p.0 < |versions[tick]| && |versions[tick][p.0].columns| <= |patch.columns|
  {
    versions[tick := versions[tick][p.0 := Patched(versions[tick][p.0], patch, [(p.1, 0)])]]
  }

  /** The first failing check on the way from a row id to its batch. */
  function LocateError(t: Table, row: RowId): (e: Option<StoreError>)
    ensures e.None? <==> row in t.positions && Located(t.versions, t.positions[row])
  {
    if row !in t.positions then Some(RowNotFound(row))
    else if LocTick(t.versions, t.positions[row].0).None? then Some(NoTickForBatch)
    else if !Located(t.versions, t.positions[row]) then Some(OffsetOutOfRange)
    else None
  }

  predicate BatchesWellFormed(versions: Versions) {
    forall t, b :: t in versions && 0 <= b < |versions[t]| ==> WellFormed(versions[t][b])
  }

  function UpdateTable(t: Table, row: RowId, column: string, value: Json): Outcome
    requires BatchesWellFormed(t.versions)
  {
    var e := LocateError(t, row);
    if e.Some? then Outcome(t, e)
    else
      var p := t.positions[row];
      var batch := BatchOf(t.versions, p);
      match ColumnIndex(batch.schema, column)
      case None => Outcome(t, Some(SchemaError))
      case Some(col) =>
        match UpdatePatch(batch, p.1, col, value)
        case None => Outcome(t, Some(SchemaError))
        case Some(patch) =>
          Outcome(t.(versions := PatchVersions(t.versions, LocTick(t.versions, p.0).value, p, patch)), None)
  }

  function DeleteRow(t: Table, row: RowId): Outcome
    requires BatchesWellFormed(t.versions)
  {
    var e := LocateError(t, row);
    if e.Some? then Outcome(t, e)
    else
      var p := t.positions[row];
      var patch := NullPatch(BatchOf(t.versions, p), p.1);
      Outcome(t.(versions := PatchVersions(t.versions, LocTick(t.versions, p.0).value, p, patch),
                 positions := t.positions - {row}), None)
  }

  predicate SchemaResolves(spec: TableSpec) {
    forall f :: f in spec.fields ==> f.dtype != Unregistered
  }

  function BatchesAt(versions: Versions, tick: Tick): seq<Batch> {
    if tick in versions then versions[tick] else []
  }

  /** The index key of a JSON value: a string as it is, anything else as JSON text. */
  function KeyText(v: Json): string {
    match v
    case JString(s) => s
    case JInt(n) => SignedDecimal(n)
    case JBool(b) => if b then "true" else "false"
    case JNull => "null"
    case JFloat(_, text) => text
    case JOther(text) => text
  }

  /** The row carries its table's key column. */
  predicate CarriesKey(spec: TableSpec, values: JsonRow) {
    spec.primaryKey.Some? && spec.primaryKey.value in values
  }

  function KeyOf(spec: TableSpec, values: JsonRow): string
    requires CarriesKey(spec, values)
  {
    KeyText(values[spec.primaryKey.value])
  }

  function IndexAfterInsert(t: Table, tick: Tick, values: JsonRow): KeyIndex {
    if CarriesKey(t.spec, values) then
      Inserted(t.index, KeyOf(t.spec, values), Entry(tick, |BatchesAt(t.versions, tick)|, 0))
    else t.index
  }

  function InsertRow(t: Table, tick: Tick, row: RowId, values: JsonRow): Outcome {
    if !SchemaResolves(t.spec) then Outcome(t, Some(SchemaError))
    else if row in t.positions then Outcome(t, Some(DuplicateRowId(row)))
    else
      match RowToBatch(values, t.spec.fields)
      case None => Outcome(t, Some(SchemaError))
      case Some(batch) =>
        var before := BatchesAt(t.versions, tick);
        Outcome(t.(versions := t.versions[tick := before + [batch]],
                   positions := t.positions[row := (|before|, 0)],
                   index := IndexAfterInsert(t, tick, values)), None)
  }

  /** A JSON value as a row id. */
  function RowIdOf(v: Json): Option<RowId> {
    match v
    case JInt(n) => if 0 <= n <= U64_MAX then Some(n) else None
    case JString(s) =>
      (match ParseInteger(s, 0, U64_MAX)
       case Some(n) => if 0 <= n <= U64_MAX then Some(n) else None
       case None => None)
    case _ => None
  }

  /** The id of the i-th row of a ReplaceTable: its primary key, or its ordinal when there is no key column. */
  function ReplaceId(spec: TableSpec, values: JsonRow, i: nat): Option<RowId> {
    match spec.primaryKey
    case None => if i <= U64_MAX then Some(i) else None
    case Some(pk) => if pk in values then RowIdOf(values[pk]) else None
  }

  datatype Replacement = Replacement(positions: map<RowId, Position>, batches: seq<Batch>, error: Option<StoreError>)

  /** One more row of a ReplaceTable, the i-th. */
  function ReplaceOne(spec: TableSpec, values: JsonRow, i: nat, before: Replacement): (r: Replacement)
    ensures r.error.None? ==> |r.batches| == |before.batches| + 1
  {
    match ReplaceId(spec, values, i)
    case None => before.(error := Some(SchemaError))
    case Some(id) =>
      if id in before.positions && spec.primaryKey.Some? then before.(error := Some(DuplicateRowId(id)))
      else
        var positions := before.positions[id := (i, 0)];
        match RowToBatch(values, spec.fields)
        case None => before.(positions := positions, error := Some(SchemaError))
        case Some(batch) => Replacement(positions, before.batches + [batch], None)
  }

  /** The first n rows of a ReplaceTable; the loop stops at the first error. */
  function ReplaceRows(spec: TableSpec, rows: seq<JsonRow>, n: nat): (r: Replacement)
    requires n <= |rows|
    ensures r.error.None? ==> |r.batches| == n
  {
    if n == 0 then Replacement(map[], [], None)
    else
      var before := ReplaceRows(spec, rows, n - 1);
      if before.error.Some? then before else ReplaceOne(spec, rows[n - 1], n - 1, before)
  }

  function ReplaceAll(t: Table, tick: Tick, rows: seq<JsonRow>): Outcome {
    if rows == [] || !SchemaResolves(t.spec) then Outcome(t, Some(SchemaError))
    else
      var r := ReplaceRows(t.spec, rows, |rows|);
      if r.error.Some? then Outcome(t.(positions := r.positions), r.error)
      else Outcome(t.(positions := r.positions, versions := t.versions[tick := r.batches]), None)
  }

  function ApplyDiff(t: Table, tick: Tick, d: Diff): Outcome
    requires BatchesWellFormed(t.versions)
  {
    match d
    case Update(_, row, column, value) => UpdateTable(t, row, column, value)
    case Insert(_, row, values) => InsertRow(t, tick, row, values)
    case Delete(_, row) => DeleteRow(t, row)
    case ReplaceTable(_, rows) => ReplaceAll(t, tick, rows)
  }

  // ---------------------------------------------------------------- the abstract table

  type Rows = map<RowId, Row>

  /** What reading every live row through the position map gives. */
  function AbsRows(t: Table): Rows
    requires BatchesWellFormed(t.versions)
  {
    map r | r in t.positions && Located(t.versions, t.positions[r])
      :: RowAt(BatchOf(t.versions, t.positions[r]), t.positions[r].1)
  }

  /** Every live row is found, and no two live rows share a position. */
  predicate WellPlaced(t: Table) {
    (forall r :: r in t.positions ==> Located(t.versions, t.positions[r])) &&
    (forall r, q :: r in t.positions && q in t.positions && t.positions[r] == t.positions[q] ==> r == q)
  }

  predicate UniformSchema(t: Table) {
    forall k, b :: k in t.versions && 0 <= b < |t.versions[k]| ==> t.versions[k][b].schema == t.spec.fields
  }

  ghost predicate Inv(t: Table) {
    BatchesWellFormed(t.versions) && UniformSchema(t) && WellPlaced(t)
  }

  /** A diff on a plain map from row ids to rows; None is an error. */
  function AbsApply(spec: TableSpec, rows: Rows, d: Diff): Option<Rows> {
    match d
    case Update(_, row, column, value) => AbsUpdate(spec, rows, row, column, value)
    case Insert(_, row, values) => AbsInsert(spec, rows, row, values)
    case Delete(_, row) => if row in rows then Some(rows - {row}) else None
    case ReplaceTable(_, jsonRows) =>
      if jsonRows == [] || !SchemaResolves(spec) then None else AbsReplace(spec, jsonRows, |jsonRows|)
  }

  /** One cell changes, if the row and the column exist and the column takes the value. */
  function AbsUpdate(spec: TableSpec, rows: Rows, row: RowId, column: string, value: Json): Option<Rows> {
    match ColumnIndex(spec.fields, column)
    case None => None
    case Some(c) =>
      match Convert(value, spec.fields[c].dtype)
      case None => None
      case Some(cell) =>
        if row in rows && c < |rows[row]| && (spec.fields[c].nullable || cell.Some?) then
          Some(rows[row := rows[row][c := cell]])
        else None
  }

  function AbsRow(spec: TableSpec, values: JsonRow): Option<Row> {
    match ConvertRow(values, spec.fields)
    case None => None
    case Some(row) => if Admits(spec.fields, row) then Some(row) else None
  }

  function AbsInsert(spec: TableSpec, rows: Rows, row: RowId, values: JsonRow): Option<Rows> {
    if !SchemaResolves(spec) || row in rows then None
    else
      match AbsRow(spec, values)
      case None => None
      case Some(cells) => Some(rows[row := cells])
  }

  /** The first n rows under their ids: all ids valid and distinct, all rows admitted. */
  function AbsReplace(spec: TableSpec, jsonRows: seq<JsonRow>, n: nat): Option<Rows>
    requires n <= |jsonRows|
  {
    if n == 0 then Some(map[])
    else
      match (AbsReplace(spec, jsonRows, n - 1), ReplaceId(spec, jsonRows[n - 1], n - 1), AbsRow(spec, jsonRows[n - 1]))
      case (Some(rows), Some(id), Some(cells)) => if id in rows then None else Some(rows[id := cells])
      case _ => None
  }
}
