/** The versioned table refines a plain map from row ids to rows. */
module TableRefinement {
  import opened Machine
  import opened Columns
  import opened Batches
  import opened KeyIndexes
  import opened Tables

  // ---------------------------------------------------------------- patches in place

  predicate SameShape(versions: Versions, after: Versions) {
    after.Keys == versions.Keys &&
    (forall k :: k in versions ==> |after[k]| == |versions[k]|) &&
    (forall k, b :: k in versions && 0 <= b < |versions[k]| ==> SameBatchShape(versions[k][b], after[k][b]))
  }

  predicate SameBatchShape(x: Batch, y: Batch) {
    y.schema == x.schema && NumRows(y) == NumRows(x)
  }

  lemma SameShapeLocates(versions: Versions, after: Versions, p: Position)
    requires SameShape(versions, after)
    ensures LocTick(after, p.0) == LocTick(versions, p.0)
    ensures Located(after, p) <==> Located(versions, p)
  {
    assert TicksWith(after, p.0) == TicksWith(versions, p.0);
  }

  /** Replacing one located row by a one-row patch leaves the row at every other position alone. */
  lemma PatchInPlace(versions: Versions, p: Position, patch: Batch)
    requires BatchesWellFormed(versions) && Located(versions, p)
    requires WellFormed(patch) && NumRows(patch) == 1 && patch.schema == BatchOf(versions, p).schema
    ensures var after := PatchVersions(versions, LocTick(versions, p.0).value, p, patch);
      BatchesWellFormed(after) && SameShape(versions, after) &&
      forall q :: Located(versions, q) ==>
        Located(after, q) && RowOf(after, q) == if q == p then RowAt(patch, 0) else RowOf(versions, q)
  {
    var tick := LocTick(versions, p.0).value;
    var after := PatchVersions(versions, tick, p, patch);
    PatchOneRow(BatchOf(versions, p), patch, p.1);
    hide Patched, RowAt;
    assert SameShape(versions, after);
    forall q | Located(versions, q)
      ensures Located(after, q) && RowOf(after, q) == if q == p then RowAt(patch, 0) else RowOf(versions, q)
    {
      SameShapeLocates(versions, after, q);
    }
  }

  function RowOf(versions: Versions, p: Position): Row
    requires BatchesWellFormed(versions) && Located(versions, p)
  {
    RowAt(BatchOf(versions, p), p.1)
  }

  lemma AbsRowsAt(t: Table)
    requires Inv(t)
    ensures AbsRows(t).Keys == t.positions.Keys
    ensures forall r :: r in t.positions ==> AbsRows(t)[r] == RowOf(t.versions, t.positions[r])
  {
    hide WellFormed, LocTick, RowAt;
  }

  lemma SameShapeInv(t: Table, versions: Versions)
    requires Inv(t) && SameShape(t.versions, versions) && BatchesWellFormed(versions)
    ensures Inv(t.(versions := versions))
  {
    hide WellFormed, LocTick;
    forall r | r in t.positions ensures Located(versions, t.positions[r]) {
      SameShapeLocates(t.versions, versions, t.positions[r]);
    }
    forall k, b | k in versions && 0 <= b < |versions[k]| ensures versions[k][b].schema == t.spec.fields {
      assert SameBatchShape(t.versions[k][b], versions[k][b]);
    }
  }

  /** A one-row patch for a live row. */
  ghost predicate CanPatch(t: Table, row: RowId, patch: Batch) {
    Inv(t) && row in t.positions && WellFormed(patch) && NumRows(patch) == 1 &&
    patch.schema == BatchOf(t.versions, t.positions[row]).schema
  }

  ghost function WithPatch(t: Table, row: RowId, patch: Batch): Table
    requires CanPatch(t, row, patch)
  {
    var p := t.positions[row];
    t.(versions := PatchVersions(t.versions, LocTick(t.versions, p.0).value, p, patch))
  }

  lemma WithPatchInv(t: Table, row: RowId, patch: Batch)
    requires CanPatch(t, row, patch)
    ensures Inv(WithPatch(t, row, patch))
    ensures WithPatch(t, row, patch).positions == t.positions
    ensures forall r :: r in t.positions ==>
      RowOf(WithPatch(t, row, patch).versions, t.positions[r]) ==
      if r == row then RowAt(patch, 0) else RowOf(t.versions, t.positions[r])
  {
    var after := WithPatch(t, row, patch);
    PatchInPlace(t.versions, t.positions[row], patch);
    SameShapeInv(t, after.versions);
    assert forall r :: r in t.positions ==> Located(t.versions, t.positions[r]);
    hide PatchVersions, RowAt, RowOf, LocTick, WellFormed, SameShape, UniformSchema, Located, BatchesWellFormed;
  }

  /** On the whole table: the live row gets the patch's cells, and the invariant stays. */
  lemma PatchedTable(t: Table, row: RowId, patch: Batch)
    requires CanPatch(t, row, patch)
    ensures Inv(WithPatch(t, row, patch))
    ensures AbsRows(WithPatch(t, row, patch)) == AbsRows(t)[row := RowAt(patch, 0)]
  {
    WithPatchInv(t, row, patch);
    AbsRowsAt(t);
    AbsRowsAt(WithPatch(t, row, patch));
    hide AbsRows, WithPatch, RowOf, RowAt, WellFormed, LocTick, WellPlaced, BatchesWellFormed, UniformSchema;
  }

  /** The abstract outcome of a diff: an error exactly when the map operation has one, else the same map. */
  ghost predicate Refines(t: Table, d: Diff, after: Outcome)
    requires Inv(t)
  {
    match AbsApply(t.spec, AbsRows(t), d)
    case None => after.error.Some?
    case Some(rows) => after.error.None? && Inv(after.table) && AbsRows(after.table) == rows
  }

  /** An update changes one cell of one row, and fails exactly when the row, the column or the value is unsuitable. */
  lemma UpdateRefines(t: Table, tick: Tick, d: Diff)
    requires Inv(t) && d.Update?
    ensures Refines(t, d, ApplyDiff(t, tick, d))
    ensures ApplyDiff(t, tick, d).error.Some? ==> ApplyDiff(t, tick, d).table == t
    ensures ApplyDiff(t, tick, d).table.positions == t.positions && ApplyDiff(t, tick, d).table.index == t.index
  {
    var o := ApplyDiff(t, tick, d);
    assert d.row in AbsRows(t) <==> d.row in t.positions;
    if d.row in t.positions {
      var p := t.positions[d.row];
      var batch := BatchOf(t.versions, p);
      assert batch.schema == t.spec.fields;
      assert AbsRows(t)[d.row] == RowAt(batch, p.1);
      if ColumnIndex(batch.schema, d.column).Some? {
        var patch := UpdatePatch(batch, p.1, ColumnIndex(batch.schema, d.column).value, d.value);
        if patch.Some? {
          PatchedTable(t, d.row, patch.value);
          assert o.table == WithPatch(t, d.row, patch.value);
        }
        hide Inv, UpdatePatch, RowAt, PatchVersions, AbsRows;
        hide Located, LocTick, Convert, ColumnIndex, WithPatch, CanPatch;
      }
    }
  }

  /** A delete removes one row, and fails exactly when the row is not there. */
  lemma DeleteRefines(t: Table, tick: Tick, d: Diff)
    requires Inv(t) && d.Delete?
    ensures Refines(t, d, ApplyDiff(t, tick, d))
    ensures ApplyDiff(t, tick, d).error.Some? ==> ApplyDiff(t, tick, d).table == t
  {
    AbsRowsAt(t);
    if d.row in t.positions {
      DeletedRow(t, d.row);
    }
    hide Inv, AbsRows, Located, LocTick, NullPatch, PatchVersions, WellFormed;
  }

  lemma DeletedRow(t: Table, row: RowId)
    requires Inv(t) && row in t.positions
    ensures var o := DeleteRow(t, row); o.error.None? && Inv(o.table) && AbsRows(o.table) == AbsRows(t) - {row}
  {
    var p := t.positions[row];
    var patch := NullPatch(BatchOf(t.versions, p), p.1);
    SuccessfulDelete(t, row);
    hide *;
    var after := WithPatch(t, row, patch);
    PatchedTable(t, row, patch);
    RowForgotten(after, row);
    UpdateThenForget(AbsRows(t), row, RowAt(patch, 0));
  }

  lemma UpdateThenForget(rows: Rows, row: RowId, cells: Row)
    ensures rows[row := cells] - {row} == rows - {row}
  {
  }

  lemma SuccessfulDelete(t: Table, row: RowId)
    requires Inv(t) && row in t.positions
    ensures var p := t.positions[row];
      var patch := NullPatch(BatchOf(t.versions, p), p.1);
      CanPatch(t, row, patch) &&
      DeleteRow(t, row) == Outcome(WithPatch(t, row, patch).(positions := t.positions - {row}), None)
  {
    hide NullPatch, LocTick, Patched;
  }

  lemma RowForgotten(t: Table, row: RowId)
    requires Inv(t)
    ensures var after := t.(positions := t.positions - {row}); Inv(after) && AbsRows(after) == AbsRows(t) - {row}
  {
    var after := t.(positions := t.positions - {row});
    assert Inv(after);
    AbsRowsAt(t);
    AbsRowsAt(after);
    hide AbsRows, RowOf, LocTick, WellFormed;
  }

  // ---------------------------------------------------------------- inserts

  /** The new batch index at the insert's tick belongs to no live row, and no later tick has a batch of that index. */
  predicate InsertSafe(t: Table, tick: Tick) {
    var k := |BatchesAt(t.versions, tick)|;
    (forall u :: u in t.versions && u > tick ==> |t.versions[u]| <= k) &&
    (forall r :: r in t.positions ==> t.positions[r].0 != k)
  }

  lemma LocTickAfterAppend(versions: Versions, tick: Tick, batch: Batch, b: nat)
    ensures var k := |BatchesAt(versions, tick)|;
      var after := versions[tick := BatchesAt(versions, tick) + [batch]];
      LocTick(after, b) ==
        if b != k then LocTick(versions, b)
        else if LocTick(versions, b).Some? && LocTick(versions, b).value > tick then LocTick(versions, b)
        else Some(tick)
  {
    var k := |BatchesAt(versions, tick)|;
    var after := versions[tick := BatchesAt(versions, tick) + [batch]];
    assert TicksWith(after, b) == if b == k then TicksWith(versions, b) + {tick} else TicksWith(versions, b);
  }

  /** After an insert: the new row is looked up in the tick it was written to, and every other row where it was. */
  ghost predicate InsertPlaced(t: Table, tick: Tick, after: Table) {
    WellPlaced(after) &&
    LocTick(after.versions, |BatchesAt(t.versions, tick)|) == Some(tick) &&
    forall r :: r in t.positions ==>
      LocTick(after.versions, t.positions[r].0) == LocTick(t.versions, t.positions[r].0)
  }

  /** The table right after a successful insert, in the terms the proofs below use. */
  ghost predicate Appended(t: Table, tick: Tick, row: RowId, batch: Batch, after: Table) {
    row !in t.positions && WellFormed(batch) && batch.schema == t.spec.fields && NumRows(batch) == 1 &&
    after.spec == t.spec &&
    after.versions == t.versions[tick := BatchesAt(t.versions, tick) + [batch]] &&
    after.positions == t.positions[row := (|BatchesAt(t.versions, tick)|, 0)]
  }

  lemma AppendPlacedIff(t: Table, tick: Tick, row: RowId, batch: Batch, after: Table)
    requires Inv(t) && Appended(t, tick, row, batch, after)
    ensures InsertPlaced(t, tick, after) <==> InsertSafe(t, tick)
  {
    var k := |BatchesAt(t.versions, tick)|;
    forall b ensures LocTick(after.versions, b) ==
      if b != k then LocTick(t.versions, b)
      else if LocTick(t.versions, b).Some? && LocTick(t.versions, b).value > tick then LocTick(t.versions, b)
      else Some(tick)
    {
      LocTickAfterAppend(t.versions, tick, batch, b);
    }
    assert tick !in TicksWith(t.versions, k);
    if u :| u in t.versions && u > tick && |t.versions[u]| > k {
      assert u in TicksWith(t.versions, k);
    } else if r :| r in t.positions && t.positions[r].0 == k {
      assert Located(t.versions, t.positions[r]);
    } else {
      hide InsertSafe;
      assert LocTick(t.versions, k).Some? ==> LocTick(t.versions, k).value in TicksWith(t.versions, k);
      AppendPlaced(t, tick, row, batch, after);
    }
  }

  lemma AppendPlaced(t: Table, tick: Tick, row: RowId, batch: Batch, after: Table)
    requires Inv(t) && Appended(t, tick, row, batch, after)
    requires LocTick(after.versions, |BatchesAt(t.versions, tick)|) == Some(tick)
    requires forall r :: r in t.positions ==>
      t.positions[r].0 != |BatchesAt(t.versions, tick)| &&
      LocTick(after.versions, t.positions[r].0) == LocTick(t.versions, t.positions[r].0)
    ensures Inv(after)
    ensures forall r :: r in t.positions ==>
      BatchOf(after.versions, t.positions[r]) == BatchOf(t.versions, t.positions[r])
    ensures BatchOf(after.versions, after.positions[row]) == batch
  {
    hide WellFormed, LocTick;
    forall r | r in t.positions
      ensures Located(after.versions, t.positions[r])
      ensures BatchOf(after.versions, t.positions[r]) == BatchOf(t.versions, t.positions[r])
    {
    }
  }

  lemma SuccessfulInsert(t: Table, tick: Tick, row: RowId, values: JsonRow)
    requires InsertRow(t, tick, row, values).error.None?
    ensures RowToBatch(values, t.spec.fields).Some?
    ensures Appended(t, tick, row, RowToBatch(values, t.spec.fields).value, InsertRow(t, tick, row, values).table)
  {
  }

  /** Exactly the safe inserts leave every row where it can be found. */
  lemma InsertPlacedIff(t: Table, tick: Tick, row: RowId, values: JsonRow)
    requires Inv(t) && InsertRow(t, tick, row, values).error.None?
    ensures InsertPlaced(t, tick, InsertRow(t, tick, row, values).table) <==> InsertSafe(t, tick)
  {
    SuccessfulInsert(t, tick, row, values);
    hide InsertRow;
    AppendPlacedIff(t, tick, row, RowToBatch(values, t.spec.fields).value, InsertRow(t, tick, row, values).table);
  }

  /** A safe insert adds one row to the map, and fails exactly when the map insert does. */
  lemma InsertRefines(t: Table, tick: Tick, d: Diff)
    requires Inv(t) && d.Insert? && InsertSafe(t, tick)
    ensures Refines(t, d, ApplyDiff(t, tick, d))
    ensures ApplyDiff(t, tick, d).error.Some? ==> ApplyDiff(t, tick, d).table == t
  {
    assert d.row in AbsRows(t) <==> d.row in t.positions;
    var o := InsertRow(t, tick, d.row, d.values);
    if o.error.None? {
      var batch := RowToBatch(d.values, t.spec.fields).value;
      var after := o.table;
      SuccessfulInsert(t, tick, d.row, d.values);
      AppendPlacedIff(t, tick, d.row, batch, after);
      AppendPlaced(t, tick, d.row, batch, after);
      InsertedRows(t, tick, d.row, batch, after);
      hide RowToBatch, RowAt, Inv, AbsRows, InsertSafe, Appended;
    }
  }

  lemma InsertedRows(t: Table, tick: Tick, row: RowId, batch: Batch, after: Table)
    requires Inv(t) && Inv(after) && Appended(t, tick, row, batch, after)
    requires forall r :: r in t.positions ==>
      Located(after.versions, t.positions[r]) &&
        BatchOf(after.versions, t.positions[r]) == BatchOf(t.versions, t.positions[r])
    requires BatchOf(after.versions, after.positions[row]) == batch
    ensures AbsRows(after) == AbsRows(t)[row := RowAt(batch, 0)]
  {
    AbsRowsAt(t);
    AbsRowsAt(after);
    hide WellFormed, RowAt, LocTick, AbsRows, BatchesAt, UniformSchema, BatchesWellFormed;
    assert forall r :: r in t.positions ==> RowOf(after.versions, t.positions[r]) == RowOf(t.versions, t.positions[r]);
    assert RowOf(after.versions, after.positions[row]) == RowAt(batch, 0);
    hide *;
  }

  // ---------------------------------------------------------------- replacing the whole table

  /** No later tick holds any batch. */
  predicate ReplaceSafe(t: Table, tick: Tick) {
    forall u :: u in t.versions && u > tick ==> t.versions[u] == []
  }

  /** The rows accepted so far: one single-row batch per row, found through its id. */
  ghost predicate Collected(spec: TableSpec, r: Replacement, n: nat, rows: Rows) {
    |r.batches| == n && r.positions.Keys == rows.Keys &&
    (forall i :: 0 <= i < n ==> SingleRowBatch(spec, r.batches[i])) &&
    (forall id :: id in r.positions ==>
      r.positions[id].0 < n && r.positions[id].1 == 0 && rows[id] == RowAt(r.batches[r.positions[id].0], 0)) &&
    (forall id :: id in r.positions && spec.primaryKey.None? ==> id == r.positions[id].0) &&
    (forall id, id' :: id in r.positions && id' in r.positions && r.positions[id].0 == r.positions[id'].0 ==>
      id == id') &&
    (n > 0 ==> exists id :: id in r.positions && r.positions[id] == (0, 0))
  }

  predicate SingleRowBatch(spec: TableSpec, b: Batch) {
    WellFormed(b) && b.schema == spec.fields && NumRows(b) == 1
  }

  lemma {:induction false} ReplaceRowsCollect(spec: TableSpec, rows: seq<JsonRow>, n: nat)
    requires n <= |rows|
    ensures ReplaceRows(spec, rows, n).error.None? <==> AbsReplace(spec, rows, n).Some?
    ensures ReplaceRows(spec, rows, n).error.None? ==>
      Collected(spec, ReplaceRows(spec, rows, n), n, AbsReplace(spec, rows, n).value)
  {
    if n > 0 {
      ReplaceRowsCollect(spec, rows, n - 1);
      var before := ReplaceRows(spec, rows, n - 1);
      if before.error.None? {
        CollectOne(spec, rows, n, before, AbsReplace(spec, rows, n - 1).value);
      }
    }
  }

  lemma CollectOne(spec: TableSpec, rows: seq<JsonRow>, n: nat, before: Replacement, soFar: Rows)
    requires 0 < n <= |rows|
    requires before == ReplaceRows(spec, rows, n - 1) && before.error.None?
    requires AbsReplace(spec, rows, n - 1) == Some(soFar) && Collected(spec, before, n - 1, soFar)
    ensures ReplaceRows(spec, rows, n).error.None? <==> AbsReplace(spec, rows, n).Some?
    ensures ReplaceRows(spec, rows, n).error.None? ==>
      Collected(spec, ReplaceRows(spec, rows, n), n, AbsReplace(spec, rows, n).value)
  {
    var id, batch := ReplaceId(spec, rows[n - 1], n - 1), RowToBatch(rows[n - 1], spec.fields);
    OrdinalIds(spec, rows[n - 1], n - 1);
    assert id.Some? && spec.primaryKey.None? ==> id.value !in soFar;
    AbsReplaceStep(spec, rows, n, soFar);
    ReplaceRowsStep(spec, rows, n, before);
    if id.Some? && batch.Some? && id.value !in soFar {
      hide ReplaceRows, AbsReplace, RowToBatch, ReplaceId, Collected;
      CollectedNext(spec, before, n, soFar, id.value, batch.value);
    }
  }

  lemma ReplaceRowsStep(spec: TableSpec, rows: seq<JsonRow>, n: nat, before: Replacement)
    requires 0 < n <= |rows| && before == ReplaceRows(spec, rows, n - 1) && before.error.None?
    ensures var id, batch := ReplaceId(spec, rows[n - 1], n - 1), RowToBatch(rows[n - 1], spec.fields);
      if id.Some? && batch.Some? && (id.value !in before.positions || spec.primaryKey.None?) then
        ReplaceRows(spec, rows, n) ==
          Replacement(before.positions[id.value := (n - 1, 0)], before.batches + [batch.value], None)
      else ReplaceRows(spec, rows, n).error.Some?
  {
    hide RowToBatch, ReplaceId;
  }

  lemma AbsReplaceStep(spec: TableSpec, rows: seq<JsonRow>, n: nat, soFar: Rows)
    requires 0 < n <= |rows| && AbsReplace(spec, rows, n - 1) == Some(soFar)
    ensures var id, batch := ReplaceId(spec, rows[n - 1], n - 1), RowToBatch(rows[n - 1], spec.fields);
      AbsReplace(spec, rows, n) ==
        if id.Some? && batch.Some? && id.value !in soFar then Some(soFar[id.value := RowAt(batch.value, 0)]) else None
  {
    var batch := RowToBatch(rows[n - 1], spec.fields);
    assert AbsRow(spec, rows[n - 1]) == if batch.Some? then Some(RowAt(batch.value, 0)) else None;
    hide ReplaceId, RowToBatch, AbsRow, RowAt;
  }

  lemma OrdinalIds(spec: TableSpec, values: JsonRow, i: nat)
    ensures spec.primaryKey.None? && ReplaceId(spec, values, i).Some? ==> ReplaceId(spec, values, i).value == i
  {
  }

  lemma CollectedNext(spec: TableSpec, before: Replacement, n: nat, soFar: Rows, id: RowId, batch: Batch)
    requires n > 0 && Collected(spec, before, n - 1, soFar) && id !in soFar && SingleRowBatch(spec, batch)
    requires spec.primaryKey.None? ==> id == n - 1
    ensures Collected(spec, Replacement(before.positions[id := (n - 1, 0)], before.batches + [batch], None), n,
                      soFar[id := RowAt(batch, 0)])
  {
    hide SingleRowBatch, RowAt;
    var r := Replacement(before.positions[id := (n - 1, 0)], before.batches + [batch], None);
    assert n == 1 ==> r.positions[id] == (0, 0);
    if n > 1 {
      var first :| first in before.positions && before.positions[first] == (0, 0);
      assert r.positions[first] == (0, 0);
    }
  }

  /** Exactly when no later tick holds a batch are all the new rows looked up where they were written. */
  lemma ReplacePlacedIff(t: Table, tick: Tick, rows: seq<JsonRow>)
    requires ReplaceAll(t, tick, rows).error.None?
    ensures var after := ReplaceAll(t, tick, rows).table;
      (forall r :: r in after.positions ==> LocTick(after.versions, after.positions[r].0) == Some(tick)) <==>
      ReplaceSafe(t, tick)
  {
    var after := ReplaceAll(t, tick, rows).table;
    var r := ReplaceRows(t.spec, rows, |rows|);
    ReplaceRowsCollect(t.spec, rows, |rows|);
    var first :| first in r.positions && r.positions[first] == (0, 0);
    BatchesPlacedIff(t.versions, tick, r.batches, after.versions);
    hide ReplaceRows, LocTick, ReplaceSafe, SingleRowBatch, RowAt;
    assert after.positions[first].0 == 0;
  }

  lemma BatchesPlacedIff(versions: Versions, tick: Tick, batches: seq<Batch>, after: Versions)
    requires batches != [] && after == versions[tick := batches]
    ensures LocTick(after, 0) == Some(tick) <==> forall u :: u in versions && u > tick ==> versions[u] == []
    ensures LocTick(after, 0) == Some(tick) ==> forall b :: 0 <= b < |batches| ==> LocTick(after, b) == Some(tick)
  {
    assert tick in TicksWith(after, 0);
    if u :| u in versions && u > tick && versions[u] != [] {
      assert u in TicksWith(after, 0);
    } else {
      forall b | 0 <= b < |batches| ensures LocTick(after, b) == Some(tick) {
        assert tick in TicksWith(after, b);
        assert TicksWith(after, b) <= TicksWith(after, 0);
      }
    }
  }

  /** A safe replacement makes the map exactly the new rows under their ids, and fails exactly when the map
      replacement does. */
  lemma ReplaceRefines(t: Table, tick: Tick, d: Diff)
    requires Inv(t) && d.ReplaceTable? && ReplaceSafe(t, tick)
    ensures Refines(t, d, ApplyDiff(t, tick, d))
    ensures ApplyDiff(t, tick, d).error.Some? ==> ApplyDiff(t, tick, d).table.versions == t.versions
  {
    var r := ReplaceRows(t.spec, d.rows, |d.rows|);
    var o := ReplaceAll(t, tick, d.rows);
    ReplaceRowsCollect(t.spec, d.rows, |d.rows|);
    if o.error.None? {
      ReplacePlacedIff(t, tick, d.rows);
      CollectedTable(t, tick, r, |d.rows|, AbsReplace(t.spec, d.rows, |d.rows|).value, o.table);
      hide ReplaceRows, Collected, Inv, AbsRows, ReplaceSafe;
    }
  }

  lemma CollectedTable(t: Table, tick: Tick, r: Replacement, n: nat, rows: Rows, after: Table)
    requires Inv(t) && Collected(t.spec, r, n, rows)
    requires after.spec == t.spec && after.versions == t.versions[tick := r.batches] && after.positions == r.positions
    requires forall id :: id in after.positions ==> LocTick(after.versions, after.positions[id].0) == Some(tick)
    ensures Inv(after) && AbsRows(after) == rows
  {
    CollectedLocated(t, tick, r, n, rows, after);
    hide SingleRowBatch, LocTick, RowAt, WellFormed;
    assert WellPlaced(after);
    AbsRowsAt(after);
    hide AbsRows, Located;
    assert forall id :: id in after.positions ==> RowOf(after.versions, after.positions[id]) == rows[id];
  }

  lemma CollectedLocated(t: Table, tick: Tick, r: Replacement, n: nat, rows: Rows, after: Table)
    requires Inv(t) && Collected(t.spec, r, n, rows)
    requires after.spec == t.spec && after.versions == t.versions[tick := r.batches] && after.positions == r.positions
    requires forall id :: id in after.positions ==> LocTick(after.versions, after.positions[id].0) == Some(tick)
    ensures BatchesWellFormed(after.versions) && UniformSchema(after)
    ensures forall id :: id in after.positions ==>
      Located(after.versions, after.positions[id]) &&
      BatchOf(after.versions, after.positions[id]) == r.batches[after.positions[id].0]
  {
    forall k, b | k in after.versions && 0 <= b < |after.versions[k]|
      ensures WellFormed(after.versions[k][b]) && after.versions[k][b].schema == t.spec.fields
    {
      if k == tick { assert SingleRowBatch(t.spec, r.batches[b]); }
    }
    hide LocTick, RowAt, WellFormed;
    forall id | id in after.positions
      ensures Located(after.versions, after.positions[id]) &&
              BatchOf(after.versions, after.positions[id]) == r.batches[after.positions[id].0]
    {
      assert SingleRowBatch(t.spec, r.batches[r.positions[id].0]);
    }
  }

  // ---------------------------------------------------------------- whole runs

  datatype Step = Step(tick: Tick, diff: Diff)

  /** Apply steps in order, stopping at the first error. */
  function ApplyRun(t: Table, steps: seq<Step>): (o: Outcome)
    requires BatchesWellFormed(t.versions)
    decreases |steps|
  {
    if steps == [] then Outcome(t, None)
    else
      var first := ApplyDiff(t, steps[0].tick, steps[0].diff);
      DiffKeepsWellFormed(t, steps[0].tick, steps[0].diff);
      if first.error.Some? then first else ApplyRun(first.table, steps[1..])
  }

  lemma DiffKeepsWellFormed(t: Table, tick: Tick, d: Diff)
    requires BatchesWellFormed(t.versions)
    ensures BatchesWellFormed(ApplyDiff(t, tick, d).table.versions)
  {
    match d
    case Update(_, row, column, value) => UpdateKeepsWellFormed(t, row, column, value);
    case Delete(_, row) => DeleteKeepsWellFormed(t, row);
    case Insert(_, row, values) =>
      hide WellFormed;
    case ReplaceTable(_, rows) => ReplaceKeepsWellFormed(t, tick, rows);
  }

  lemma UpdateKeepsWellFormed(t: Table, row: RowId, column: string, value: Json)
    requires BatchesWellFormed(t.versions)
    ensures BatchesWellFormed(UpdateTable(t, row, column, value).table.versions)
  {
    if UpdateTable(t, row, column, value).error.None? {
      var p := t.positions[row];
      var batch := BatchOf(t.versions, p);
      PatchInPlace(t.versions, p, UpdatePatch(batch, p.1, ColumnIndex(batch.schema, column).value, value).value);
      hide PatchVersions, UpdatePatch, LocTick, WellFormed, Located, BatchesWellFormed;
    }
  }

  lemma DeleteKeepsWellFormed(t: Table, row: RowId)
    requires BatchesWellFormed(t.versions)
    ensures BatchesWellFormed(DeleteRow(t, row).table.versions)
  {
    if DeleteRow(t, row).error.None? {
      var p := t.positions[row];
      PatchInPlace(t.versions, p, NullPatch(BatchOf(t.versions, p), p.1));
      hide PatchVersions, NullPatch, LocTick, WellFormed, Located, BatchesWellFormed;
    }
  }

  lemma ReplaceKeepsWellFormed(t: Table, tick: Tick, rows: seq<JsonRow>)
    requires BatchesWellFormed(t.versions)
    ensures BatchesWellFormed(ReplaceAll(t, tick, rows).table.versions)
  {
    ReplacedBatches(t.spec, rows);
    hide ReplaceRows, WellFormed;
  }

  lemma ReplacedBatches(spec: TableSpec, rows: seq<JsonRow>)
    ensures var r := ReplaceRows(spec, rows, |rows|); r.error.None? ==> forall b :: b in r.batches ==> WellFormed(b)
  {
    ReplaceRowsCollect(spec, rows, |rows|);
    hide ReplaceRows, WellFormed, AbsReplace;
    var r := ReplaceRows(spec, rows, |rows|);
    assert r.error.None? ==> forall i :: 0 <= i < |rows| ==> SingleRowBatch(spec, r.batches[i]);
  }

  function AbsRun(spec: TableSpec, rows: Rows, steps: seq<Step>): Option<Rows>
    decreases |steps|
  {
    if steps == [] then Some(rows)
    else
      match AbsApply(spec, rows, steps[0].diff)
      case None => None
      case Some(next) => AbsRun(spec, next, steps[1..])
  }

  predicate StepSafe(t: Table, step: Step) {
    match step.diff
    case Insert(_, _, _) => InsertSafe(t, step.tick)
    case ReplaceTable(_, _) => ReplaceSafe(t, step.tick)
    case _ => true
  }

  /** Every insert and replacement of the run is safe at the point where it happens. */
  predicate RunSafe(t: Table, steps: seq<Step>)
    requires BatchesWellFormed(t.versions)
    decreases |steps|
  {
    steps == [] ||
    (StepSafe(t, steps[0]) &&
     (var first := ApplyDiff(t, steps[0].tick, steps[0].diff);
      DiffKeepsWellFormed(t, steps[0].tick, steps[0].diff);
      first.error.Some? || RunSafe(first.table, steps[1..])))
  }

  lemma StepRefines(t: Table, step: Step)
    requires Inv(t) && StepSafe(t, step)
    ensures Refines(t, step.diff, ApplyDiff(t, step.tick, step.diff))
    ensures ApplyDiff(t, step.tick, step.diff).table.spec == t.spec
  {
    match step.diff {
      case Update(_, _, _, _) => UpdateRefines(t, step.tick, step.diff);
      case Delete(_, _) => DeleteRefines(t, step.tick, step.diff);
      case Insert(_, _, _) => InsertRefines(t, step.tick, step.diff);
      case ReplaceTable(_, _) => ReplaceRefines(t, step.tick, step.diff);
    }
    hide Refines, StepSafe, Inv, PatchVersions, ReplaceRows, RowToBatch, UpdatePatch, LocTick;
  }

  /** Storage refines a map over whole runs: a safe run fails exactly when the run of map operations fails, and
      otherwise reading the rows through the position map gives the map. */
  lemma {:induction false} RunRefinesMap(t: Table, steps: seq<Step>)
    requires Inv(t) && RunSafe(t, steps)
    ensures match AbsRun(t.spec, AbsRows(t), steps)
            case None => ApplyRun(t, steps).error.Some?
            case Some(rows) => var o := ApplyRun(t, steps); o.error.None? && Inv(o.table) && AbsRows(o.table) == rows
    decreases |steps|
  {
    if steps != [] {
      StepRefines(t, steps[0]);
      var first := ApplyDiff(t, steps[0].tick, steps[0].diff);
      if first.error.None? {
        RunRefinesMap(first.table, steps[1..]);
      }
      hide ApplyDiff, AbsApply, Inv, AbsRows;
    }
  }

  // ---------------------------------------------------------------- a discipline that keeps runs safe

  /** Every live row's batch index exists in the table's latest tick. */
  predicate InLatest(t: Table) {
    forall r :: r in t.positions ==>
      exists k :: k in t.versions && (forall u :: u in t.versions ==> u <= k) && t.positions[r].0 < |t.versions[k]|
  }

  /** Inserts go to the latest tick, or to a later one once no row is live; replacements never go back in time. */
  predicate Disciplined(t: Table, step: Step) {
    match step.diff
    case Insert(_, _, _) =>
      (forall u :: u in t.versions ==> u <= step.tick) && (step.tick in t.versions || t.positions == map[])
    case ReplaceTable(_, _) => forall u :: u in t.versions ==> u <= step.tick
    case _ => true
  }

  lemma DisciplineIsSafe(t: Table, step: Step)
    requires Inv(t) && InLatest(t) && Disciplined(t, step)
    ensures StepSafe(t, step)
    ensures ApplyDiff(t, step.tick, step.diff).error.None? ==> InLatest(ApplyDiff(t, step.tick, step.diff).table)
  {
    var o := ApplyDiff(t, step.tick, step.diff);
    if o.error.None? {
      match step.diff {
        case Update(_, _, _, _) => UpdateInLatest(t, step.tick, step.diff);
        case Delete(_, _) => DeleteInLatest(t, step.tick, step.diff);
        case Insert(_, row, values) => InsertInLatest(t, step.tick, row, values);
        case ReplaceTable(_, rows) => ReplaceInLatest(t, step.tick, rows);
      }
    }
    hide ApplyDiff, Located;
    assert StepSafe(t, step) by { SafeFromLatest(t, step); }
  }

  lemma SafeFromLatest(t: Table, step: Step)
    requires InLatest(t) && Disciplined(t, step)
    ensures StepSafe(t, step)
  {
  }

  lemma UpdateInLatest(t: Table, tick: Tick, d: Diff)
    requires Inv(t) && InLatest(t) && d.Update? && UpdateTable(t, d.row, d.column, d.value).error.None?
    ensures InLatest(UpdateTable(t, d.row, d.column, d.value).table)
  {
    var p := t.positions[d.row];
    var batch := BatchOf(t.versions, p);
    var patch := UpdatePatch(batch, p.1, ColumnIndex(batch.schema, d.column).value, d.value);
    PatchInPlace(t.versions, p, patch.value);
    hide PatchVersions, InLatest, LocTick;
    SameShapeInLatest(t, UpdateTable(t, d.row, d.column, d.value).table);
  }

  lemma DeleteInLatest(t: Table, tick: Tick, d: Diff)
    requires Inv(t) && InLatest(t) && d.Delete? && DeleteRow(t, d.row).error.None?
    ensures InLatest(DeleteRow(t, d.row).table)
  {
    var p := t.positions[d.row];
    PatchInPlace(t.versions, p, NullPatch(BatchOf(t.versions, p), p.1));
    hide PatchVersions, InLatest, LocTick;
    SameShapeInLatest(t, DeleteRow(t, d.row).table);
  }

  lemma InsertInLatest(t: Table, tick: Tick, row: RowId, values: JsonRow)
    requires InLatest(t) && InsertRow(t, tick, row, values).error.None?
    requires forall u :: u in t.versions ==> u <= tick
    requires tick in t.versions || t.positions == map[]
    ensures InLatest(InsertRow(t, tick, row, values).table)
  {
    SuccessfulInsert(t, tick, row, values);
    hide InsertRow, InLatest;
    AppendInLatest(t, tick, row, RowToBatch(values, t.spec.fields).value, InsertRow(t, tick, row, values).table);
  }

  lemma ReplaceInLatest(t: Table, tick: Tick, rows: seq<JsonRow>)
    requires ReplaceAll(t, tick, rows).error.None?
    requires forall u :: u in t.versions ==> u <= tick
    ensures InLatest(ReplaceAll(t, tick, rows).table)
  {
    ReplaceRowsCollect(t.spec, rows, |rows|);
    hide InLatest, ReplaceRows, Collected;
    ReplacedInLatest(t, tick, ReplaceRows(t.spec, rows, |rows|), |rows|, AbsReplace(t.spec, rows, |rows|).value,
                     ReplaceAll(t, tick, rows).table);
  }

  lemma SameShapeInLatest(t: Table, after: Table)
    requires InLatest(t) && SameShape(t.versions, after.versions)
    requires after.positions.Keys <= t.positions.Keys
    requires forall r :: r in after.positions ==> after.positions[r] == t.positions[r]
    ensures InLatest(after)
  {
    forall r | r in after.positions
      ensures exists k ::
        k in after.versions && (forall u :: u in after.versions ==> u <= k) &&
        after.positions[r].0 < |after.versions[k]|
    {
      var k :| k in t.versions && (forall u :: u in t.versions ==> u <= k) && t.positions[r].0 < |t.versions[k]|;
      assert k in after.versions;
    }
  }

  lemma AppendInLatest(t: Table, tick: Tick, row: RowId, batch: Batch, after: Table)
    requires InLatest(t) && Appended(t, tick, row, batch, after)
    requires forall u :: u in t.versions ==> u <= tick
    requires tick in t.versions || t.positions == map[]
    ensures InLatest(after)
  {
    hide WellFormed;
    forall r | r in after.positions
      ensures tick in after.versions && (forall u :: u in after.versions ==> u <= tick) &&
              after.positions[r].0 < |after.versions[tick]|
    {
      if r != row {
        var k :| k in t.versions && (forall u :: u in t.versions ==> u <= k) && t.positions[r].0 < |t.versions[k]|;
        assert k == tick;
      }
    }
  }

  lemma ReplacedInLatest(t: Table, tick: Tick, r: Replacement, n: nat, rows: Rows, after: Table)
    requires Collected(t.spec, r, n, rows)
    requires after.versions == t.versions[tick := r.batches] && after.positions == r.positions
    requires forall u :: u in t.versions ==> u <= tick
    ensures InLatest(after)
  {
    hide SingleRowBatch, RowAt;
    forall id | id in after.positions
      ensures tick in after.versions && (forall u :: u in after.versions ==> u <= tick) &&
              after.positions[id].0 < |after.versions[tick]|
    {
    }
  }

  predicate RunDisciplined(t: Table, steps: seq<Step>)
    requires BatchesWellFormed(t.versions)
    decreases |steps|
  {
    steps == [] ||
    (Disciplined(t, steps[0]) &&
     (var first := ApplyDiff(t, steps[0].tick, steps[0].diff);
      DiffKeepsWellFormed(t, steps[0].tick, steps[0].diff);
      first.error.Some? || RunDisciplined(first.table, steps[1..])))
  }

  /** A disciplined run from a table whose rows are all in its latest tick is safe throughout, and every row of a
      successful one ends in the latest tick again. */
  lemma {:induction false} DisciplinedRunIsSafe(t: Table, steps: seq<Step>)
    requires Inv(t) && InLatest(t) && RunDisciplined(t, steps)
    ensures RunSafe(t, steps)
    ensures ApplyRun(t, steps).error.None? ==> InLatest(ApplyRun(t, steps).table)
    decreases |steps|
  {
    if steps != [] {
      DisciplineIsSafe(t, steps[0]);
      StepRefines(t, steps[0]);
      var first := ApplyDiff(t, steps[0].tick, steps[0].diff);
      if first.error.None? {
        DisciplinedRunIsSafe(first.table, steps[1..]);
      }
      hide ApplyDiff, AbsApply, Inv, InLatest, Disciplined, StepSafe;
    }
  }

  // ---------------------------------------------------------------- when the discipline is not kept

  const ONE_COLUMN := TableSpec([Field("v", Int64, true)], None)
  const EMPTY_TABLE := Table(ONE_COLUMN, map[], map[], EMPTY_INDEX)

  function OneCell(n: int): JsonRow {
    map["v" := JInt(n)]
  }

  /** Two inserts at successive ticks: reading the first row then returns the second row's data. */
  lemma CrossTickInsertWitness()
    ensures var t1 := InsertRow(EMPTY_TABLE, 0, 7, OneCell(10)).table;
      var o := InsertRow(t1, 1, 8, OneCell(20));
      o.error.None? && !InsertSafe(t1, 1) && BatchesWellFormed(o.table.versions) &&
      7 in AbsRows(o.table) && AbsRows(o.table)[7] == [Some(Number(20))]
  {
    OneCellBatch(10);
    OneCellBatch(20);
    var b1, b2 := Batch(ONE_COLUMN.fields, [[Some(Number(10))]]), Batch(ONE_COLUMN.fields, [[Some(Number(20))]]);
    assert [] + [b1] == [b1] && [] + [b2] == [b2];
    var t1 := InsertRow(EMPTY_TABLE, 0, 7, OneCell(10)).table;
    assert t1.versions[0] == [b1] && t1.positions[7] == (0, 0);
    var t2 := InsertRow(t1, 1, 8, OneCell(20)).table;
    assert t2.versions[1] == [b2] && t2.versions[0] == [b1];
    assert 1 in TicksWith(t2.versions, 0);
    assert RowAt(b2, 0) == [Some(Number(20))];
  }

  lemma OneCellBatch(n: int)
    requires FitsI64(n)
    ensures RowToBatch(OneCell(n), ONE_COLUMN.fields) == Some(Batch(ONE_COLUMN.fields, [[Some(Number(n))]]))
  {
    var row := ConvertRow(OneCell(n), ONE_COLUMN.fields);
    assert Convert(FieldValue(OneCell(n), ONE_COLUMN.fields[0]), Int64) == Some(Some(Number(n)));
    assert row.Some?;
    assert row.value == [Some(Number(n))];
    assert SingleRow(row.value) == [[Some(Number(n))]];
  }
}
