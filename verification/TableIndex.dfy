/** The key index inside a table against the table's rows: when a key's latest entry finds the live row that carries
    it. */
module TableIndexes {
  import opened Machine
  import opened Texts
  import opened Batches
  import opened KeyIndexes
  import opened Tables
  import opened TableRefinement

  // ---------------------------------------------------------------- what the index should say

  /** The latest entry of a key is the place where a live row is found. */
  predicate Locates(t: Table, key: string, row: RowId) {
    && key in t.index.latest && row in t.positions
    && t.positions[row] == (t.index.latest[key].batch, t.index.latest[key].row)
    && LocTick(t.versions, t.positions[row].0) == Some(t.index.latest[key].tick)
  }

  /** A cell as the text of a key. */
  function CellText(cell: Option<Cell>): Option<string> {
    match cell
    case None => None
    case Some(Number(n)) => Some(SignedDecimal(n))
    case Some(Flag(b)) => Some(if b then "true" else "false")
    case Some(Text(s)) => Some(s)
  }

  function KeyColumn(spec: TableSpec): Option<nat> {
    match spec.primaryKey
    case None => None
    case Some(name) => ColumnIndex(spec.fields, name)
  }

  /** The row's key cell holds the key. */
  predicate Carries(spec: TableSpec, rows: Rows, key: string, row: RowId) {
    && row in rows && KeyColumn(spec).Some? && KeyColumn(spec).value < |rows[row]|
    && CellText(rows[row][KeyColumn(spec).value]) == Some(key)
  }

  /** Looking the key up finds the live row that carries it. */
  ghost predicate Finds(t: Table, key: string, row: RowId)
    requires Inv(t)
  {
    Locates(t, key, row) && Carries(t.spec, AbsRows(t), key, row)
  }

  // ---------------------------------------------------------------- the entry an insert makes

  /** A safe insert makes its key find the row unless the key has an entry of a later tick. */
  lemma InsertLocatesIff(t: Table, tick: Tick, row: RowId, values: JsonRow)
    requires Inv(t) && InsertSafe(t, tick) && InsertRow(t, tick, row, values).error.None? && CarriesKey(t.spec, values)
    ensures var after := InsertRow(t, tick, row, values).table;
      var key := KeyOf(t.spec, values);
      Locates(after, key, row) <==> key !in t.index.latest || t.index.latest[key].tick <= tick
  {
    InsertPlacedIff(t, tick, row, values);
    hide RowToBatch, LocTick, WellPlaced, Inv, KeyText;
  }

  /** And the row carries the key exactly if its key cell reads as the JSON value does: a null, or a fraction that an
      integer column drops, is indexed under a text that the row does not hold. */
  lemma InsertFindsIff(t: Table, tick: Tick, d: Diff)
    requires Inv(t) && d.Insert? && InsertSafe(t, tick) && ApplyDiff(t, tick, d).error.None? &&
      CarriesKey(t.spec, d.values)
    ensures Inv(ApplyDiff(t, tick, d).table)
    ensures var key := KeyOf(t.spec, d.values);
      Finds(ApplyDiff(t, tick, d).table, key, d.row) <==>
        (key !in t.index.latest || t.index.latest[key].tick <= tick) &&
        Carries(t.spec, map[d.row := AbsRow(t.spec, d.values).value], key, d.row)
  {
    StepRefines(t, Step(tick, d));
    InsertLocatesIff(t, tick, d.row, d.values);
    hide InsertRow, Locates, Inv, AbsRows, AbsRow, KeyText, InsertSafe;
  }

  // ---------------------------------------------------------------- what later diffs do to it

  /** The insert writes this key's latest entry. */
  predicate Rewrites(t: Table, tick: Tick, values: JsonRow, key: string)
    requires key in t.index.latest
  {
    CarriesKey(t.spec, values) && KeyOf(t.spec, values) == key && t.index.latest[key].tick <= tick
  }

  /** What a diff must leave alone for the entry to go on locating the row. */
  predicate EntryKept(t: Table, tick: Tick, d: Diff, key: string, row: RowId)
    requires Locates(t, key, row)
  {
    match d
    case Update(_, _, _, _) => true
    case Delete(_, r) => r != row
    case Insert(_, _, values) => !Rewrites(t, tick, values, key)
    case ReplaceTable(_, rows) =>
      var positions := ReplaceRows(t.spec, rows, |rows|).positions;
      row in positions && positions[row] == t.positions[row] && t.index.latest[key].tick == tick
  }

  lemma UpdateLocates(t: Table, d: Diff, key: string, row: RowId)
    requires Inv(t) && d.Update? && UpdateTable(t, d.row, d.column, d.value).error.None?
    ensures Locates(UpdateTable(t, d.row, d.column, d.value).table, key, row) <==> Locates(t, key, row)
  {
    var p := t.positions[d.row];
    var batch := BatchOf(t.versions, p);
    var patch := UpdatePatch(batch, p.1, ColumnIndex(batch.schema, d.column).value, d.value);
    PatchInPlace(t.versions, p, patch.value);
    var after := UpdateTable(t, d.row, d.column, d.value).table;
    hide PatchVersions, LocTick, UpdatePatch, SameShape;
    if row in t.positions {
      SameShapeLocates(t.versions, after.versions, t.positions[row]);
    }
  }

  lemma DeleteLocates(t: Table, d: Diff, key: string, row: RowId)
    requires Inv(t) && d.Delete? && DeleteRow(t, d.row).error.None?
    ensures Locates(DeleteRow(t, d.row).table, key, row) <==> Locates(t, key, row) && row != d.row
    ensures DeleteRow(t, d.row).table.index == t.index
  {
    var p := t.positions[d.row];
    PatchInPlace(t.versions, p, NullPatch(BatchOf(t.versions, p), p.1));
    var after := DeleteRow(t, d.row).table;
    hide PatchVersions, LocTick, NullPatch, SameShape;
    if row in t.positions {
      SameShapeLocates(t.versions, after.versions, t.positions[row]);
    }
  }

  lemma InsertLocates(t: Table, tick: Tick, d: Diff, key: string, row: RowId)
    requires Inv(t) && d.Insert? && InsertSafe(t, tick) && InsertRow(t, tick, d.row, d.values).error.None?
    requires Locates(t, key, row)
    ensures Locates(InsertRow(t, tick, d.row, d.values).table, key, row) <==> !Rewrites(t, tick, d.values, key)
  {
    InsertPlacedIff(t, tick, d.row, d.values);
    SuccessfulInsert(t, tick, d.row, d.values);
    hide RowToBatch, LocTick, WellPlaced, Inv, KeyText;
  }

  lemma ReplaceLocates(t: Table, tick: Tick, d: Diff, key: string, row: RowId)
    requires d.ReplaceTable? && ReplaceSafe(t, tick) && ReplaceAll(t, tick, d.rows).error.None?
    requires Locates(t, key, row)
    ensures Locates(ReplaceAll(t, tick, d.rows).table, key, row) <==> EntryKept(t, tick, d, key, row)
  {
    ReplacePlacedIff(t, tick, d.rows);
    hide ReplaceRows, LocTick;
  }

  /** Exactly when a successful safe diff leaves a key's entry locating its row. */
  lemma LocatesKeptIff(t: Table, tick: Tick, d: Diff, key: string, row: RowId)
    requires Inv(t) && StepSafe(t, Step(tick, d)) && ApplyDiff(t, tick, d).error.None? && Locates(t, key, row)
    ensures Locates(ApplyDiff(t, tick, d).table, key, row) <==> EntryKept(t, tick, d, key, row)
  {
    match d {
      case Update(_, _, _, _) => UpdateLocates(t, d, key, row);
      case Delete(_, _) => DeleteLocates(t, d, key, row);
      case Insert(_, _, _) => InsertLocates(t, tick, d, key, row);
      case ReplaceTable(_, _) => ReplaceLocates(t, tick, d, key, row);
    }
    hide UpdateTable, DeleteRow, InsertRow, ReplaceAll, Locates, Inv, ReplaceRows, Rewrites;
  }

  /** A deleted row leaves its entries behind. */
  lemma DeletedRowStaysIndexed(t: Table, tick: Tick, d: Diff, key: string)
    requires Inv(t) && d.Delete? && ApplyDiff(t, tick, d).error.None? && Locates(t, key, d.row)
    ensures var after := ApplyDiff(t, tick, d).table;
      key in after.index.latest && after.index.latest[key] == t.index.latest[key] && d.row !in after.positions
  {
    DeleteLocates(t, d, key, d.row);
    hide LocTick, NullPatch, PatchVersions;
  }

  /** An update of its key cell is the only diff that makes a row that stays live carry another key; the index never
      learns of it. */
  lemma UpdateCarriesIff(t: Table, tick: Tick, d: Diff, key: string, row: RowId)
    requires Inv(t) && d.Update? && ApplyDiff(t, tick, d).error.None? && Carries(t.spec, AbsRows(t), key, row)
    ensures var after := ApplyDiff(t, tick, d).table;
      Inv(after) && after.spec == t.spec && after.index == t.index &&
      (Carries(t.spec, AbsRows(after), key, row) <==>
         (d.row == row && ColumnIndex(t.spec.fields, d.column) == KeyColumn(t.spec) ==>
            CellText(Convert(d.value, t.spec.fields[KeyColumn(t.spec).value].dtype).value) == Some(key)))
  {
    hide ApplyDiff, AbsRows, Convert, CellText;
    StepRefines(t, Step(tick, d));
    UpdateRefines(t, tick, d);
    hide Inv, ColumnIndex;
  }

  /** The insert or delete of another row leaves what a row carries alone. */
  lemma OtherRowCarries(t: Table, tick: Tick, d: Diff, key: string, row: RowId)
    requires Inv(t) && (d.Insert? || d.Delete?) && StepSafe(t, Step(tick, d)) && ApplyDiff(t, tick, d).error.None?
    requires row != d.row
    ensures Inv(ApplyDiff(t, tick, d).table)
    ensures Carries(t.spec, AbsRows(ApplyDiff(t, tick, d).table), key, row) <==> Carries(t.spec, AbsRows(t), key, row)
  {
    StepRefines(t, Step(tick, d));
    hide ApplyDiff, Inv, AbsRows, AbsRow, CellText, StepSafe;
  }
}
