/** The mutable table: the diffs as they are carried out on its fields. */
module VersionedTables {
  import opened Machine
  import opened Columns
  import opened Batches
  import opened KeyIndexes
  import opened Tables
  import opened TableRefinement

  class VersionedTable {
    const spec: TableSpec
    var versions: Versions
    var positions: map<RowId, Position>
    var index: KeyIndex

    function Value(): Table
      reads this
    {
      Table(spec, versions, positions, index)
    }

    constructor (spec: TableSpec)
      ensures Value() == Table(spec, map[], map[], EMPTY_INDEX)
    {
      this.spec := spec;
      versions, positions, index := map[], map[], EMPTY_INDEX;
    }

    /** The tick, batch index and offset of a live row, or the first check that fails. */
    method Locate(row: RowId) returns (e: Option<StoreError>, tick: Tick, p: Position)
      ensures e == LocateError(Value(), row)
      ensures e.None? ==> row in positions && p == positions[row] && LocTick(versions, p.0) == Some(tick)
    {
      tick, p := 0, (0, 0);
      if row !in positions {
        return Some(RowNotFound(row)), tick, p;
      }
      p := positions[row];
      var found := LocTick(versions, p.0);
      match found {
        case None => return Some(NoTickForBatch), tick, p;
        case Some(t) => tick := t;
      }
      if p.1 >= NumRows(versions[tick][p.0]) {
        return Some(OffsetOutOfRange), tick, p;
      }
      e := None;
    }

    /** Patch one row in place through the grouping loop. */
    method ApplyPatch(tick: Tick, p: Position, patch: Batch)
      requires BatchesWellFormed(versions) && tick in versions && p.0 < |versions[tick]|
      requires WellFormed(patch) && NumRows(patch) == 1 && patch.schema == versions[tick][p.0].schema
      requires p.1 < NumRows(versions[tick][p.0])
      modifies this`versions
      ensures versions == PatchVersions(old(versions), tick, p, patch)
    {
      var batches := versions[tick];
      PatchOneRow(batches[p.0], patch, p.1);
      var r, ok := PatchGrouped(batches, [p], patch);
      assert [p][..0] == [];
      assert PatchInOrder(batches, [p], patch) == batches[p.0 := Patched(batches[p.0], patch, [(p.1, 0)])];
      versions := versions[tick := r];
    }

    method ApplyUpdate(row: RowId, column: string, value: Json) returns (error: Option<StoreError>)
      requires BatchesWellFormed(versions)
      modifies this`versions
      ensures Outcome(Value(), error) == UpdateTable(old(Value()), row, column, value)
    {
      var e, tick, p := Locate(row);
      if e.Some? {
        return e;
      }
      var batch := versions[tick][p.0];
      var col := ColumnIndex(batch.schema, column);
      if col.None? {
        return Some(SchemaError);
      }
      var patch := UpdatePatch(batch, p.1, col.value, value);
      if patch.None? {
        return Some(SchemaError);
      }
      ApplyPatch(tick, p, patch.value);
      return None;
    }

    method ApplyDelete(row: RowId) returns (error: Option<StoreError>)
      requires BatchesWellFormed(versions)
      modifies this`versions, this`positions
      ensures Outcome(Value(), error) == DeleteRow(old(Value()), row)
    {
      var e, tick, p := Locate(row);
      if e.Some? {
        return e;
      }
      ApplyPatch(tick, p, NullPatch(versions[tick][p.0], p.1));
      positions := positions - {row};
      return None;
    }

    method ApplyInsert(tick: Tick, row: RowId, values: JsonRow) returns (error: Option<StoreError>)
      modifies this
      ensures Outcome(Value(), error) == InsertRow(old(Value()), tick, row, values)
    {
      if !SchemaResolves(spec) {
        return Some(SchemaError);
      }
      if row in positions {
        return Some(DuplicateRowId(row));
      }
      var batch := RowToBatch(values, spec.fields);
      if batch.None? {
        return Some(SchemaError);
      }
      versions := versions[tick := BatchesAt(versions, tick) + [batch.value]];
      var batchIdx := |versions[tick]| - 1;
      if spec.primaryKey.Some? && spec.primaryKey.value in values {
        index := Inserted(index, KeyText(values[spec.primaryKey.value]), Entry(tick, batchIdx, 0));
      }
      positions := positions[row := (batchIdx, 0)];
      return None;
    }

    /** The position map is emptied first and filled row by row: a row that fails leaves it half filled. */
    method ApplyReplace(tick: Tick, rows: seq<JsonRow>) returns (error: Option<StoreError>)
      modifies this`versions, this`positions
      ensures Outcome(Value(), error) == ReplaceAll(old(Value()), tick, rows)
    {
      if rows == [] || !SchemaResolves(spec) {
        return Some(SchemaError);
      }
      var batches: seq<Batch> := [];
      positions := map[];
      for i := 0 to |rows|
        invariant Replacement(positions, batches, None) == ReplaceRows(spec, rows, i)
        invariant versions == old(versions)
      {
        error, batches := ReplaceRow(rows[i], i, batches);
        if error.Some? {
          ReplaceStops(spec, rows, i + 1, |rows|);
          return;
        }
      }
      versions := versions[tick := batches];
      return None;
    }

    /** The body of the loop above. */
    method ReplaceRow(values: JsonRow, i: nat, batches: seq<Batch>) returns (error: Option<StoreError>, r: seq<Batch>)
      modifies this`positions
      ensures Replacement(positions, r, error) ==
        ReplaceOne(spec, values, i, Replacement(old(positions), batches, None))
    {
      var id := ReplaceId(spec, values, i);
      if id.None? {
        return Some(SchemaError), batches;
      }
      if spec.primaryKey.Some? && id.value in positions {
        return Some(DuplicateRowId(id.value)), batches;
      }
      positions := positions[id.value := (i, 0)];
      var batch := RowToBatch(values, spec.fields);
      if batch.None? {
        return Some(SchemaError), batches;
      }
      return None, batches + [batch.value];
    }

    method Apply(tick: Tick, d: Diff) returns (error: Option<StoreError>)
      requires BatchesWellFormed(versions)
      modifies this
      ensures Outcome(Value(), error) == ApplyDiff(old(Value()), tick, d)
      ensures BatchesWellFormed(versions)
    {
      DiffKeepsWellFormed(Value(), tick, d);
      match d {
        case Update(_, row, column, value) => error := ApplyUpdate(row, column, value);
        case Insert(_, row, values) => error := ApplyInsert(tick, row, values);
        case Delete(_, row) => error := ApplyDelete(row);
        case ReplaceTable(_, rows) => error := ApplyReplace(tick, rows);
      }
    }
  }

  /** Once a row has failed, the outcome for more rows is the same. */
  lemma {:induction false} ReplaceStops(spec: TableSpec, rows: seq<JsonRow>, m: nat, n: nat)
    requires m <= n <= |rows| && ReplaceRows(spec, rows, m).error.Some?
    ensures ReplaceRows(spec, rows, n) == ReplaceRows(spec, rows, m)
    decreases n
  {
    if m < n {
      ReplaceStops(spec, rows, m, n - 1);
    }
  }
}
