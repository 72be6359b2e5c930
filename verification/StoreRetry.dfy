/** Whether a batch that applied once and was rolled back applies again: decided by the batch and by where the first
    application left the rows, once and for all retries. */
module StoreRetries {
  import opened Machine
  import opened Batches
  import opened KeyIndexes
  import opened Tables
  import opened TableRefinement
  import opened Stores
  import opened StoreRollback

  // ---------------------------------------------------------------- tables that differ only in cells and positions

  /** Equal specs, equal shapes, and one schema throughout. */
  ghost predicate Alike(a: Table, b: Table) {
    && a.spec == b.spec
    && BatchesWellFormed(a.versions) && BatchesWellFormed(b.versions)
    && UniformSchema(a) && SameShape(a.versions, b.versions)
  }

  lemma ShapesChain(a: Versions, b: Versions, a': Versions, b': Versions)
    requires SameShape(a, b) && SameShape(a, a') && SameShape(b, b')
    ensures SameShape(a', b')
  {
    forall k, i | k in a' && 0 <= i < |a'[k]| ensures SameBatchShape(a'[k][i], b'[k][i]) {
      assert SameBatchShape(a[k][i], b[k][i]) && SameBatchShape(a[k][i], a'[k][i]) && SameBatchShape(b[k][i], b'[k][i]);
    }
  }

  lemma UniformKept(t: Table, after: Table)
    requires UniformSchema(t) && SameShape(t.versions, after.versions) && after.spec == t.spec
    ensures UniformSchema(after)
  {
    forall k, i | k in after.versions && 0 <= i < |after.versions[k]|
      ensures after.versions[k][i].schema == t.spec.fields
    {
      assert SameBatchShape(t.versions[k][i], after.versions[k][i]);
    }
  }

  /** What a diff asks of the row positions, given batches of the right shape. */
  predicate Suits(d: Diff, positions: map<RowId, Position>, versions: Versions) {
    match d
    case Insert(_, row, _) => row !in positions
    case Update(_, row, _, _) => row in positions && Located(versions, positions[row])
    case Delete(_, row) => row in positions && Located(versions, positions[row])
    case ReplaceTable(_, _) => true
  }

  lemma LocatedAlike(a: Table, b: Table, p: Position)
    requires Alike(a, b)
    ensures Located(a.versions, p) <==> Located(b.versions, p)
    ensures Located(b.versions, p) ==>
      BatchOf(b.versions, p).schema == a.spec.fields && WellFormed(BatchOf(b.versions, p))
  {
    SameShapeLocates(a.versions, b.versions, p);
    UniformKept(a, b);
    hide WellFormed, SameShape;
  }

  /** A successful update: the row is located, and column and value suit the schema. */
  lemma UpdateSucceedsIff(t: Table, row: RowId, column: string, value: Json)
    requires BatchesWellFormed(t.versions) && UniformSchema(t)
    ensures UpdateTable(t, row, column, value).error.None? <==>
      row in t.positions && Located(t.versions, t.positions[row]) && ColumnTakes(t.spec, column, value)
    ensures UpdateTable(t, row, column, value).error.None? ==>
      SameShape(t.versions, UpdateTable(t, row, column, value).table.versions) &&
      BatchesWellFormed(UpdateTable(t, row, column, value).table.versions)
  {
    if row in t.positions && Located(t.versions, t.positions[row]) {
      var p := t.positions[row];
      var batch := BatchOf(t.versions, p);
      assert batch.schema == t.spec.fields && WellFormed(batch);
      var col := ColumnIndex(batch.schema, column);
      if col.Some? {
        var patch := UpdatePatch(batch, p.1, col.value, value);
        if patch.Some? {
          PatchInPlace(t.versions, p, patch.value);
        }
      }
    }
    hide UpdatePatch, Convert, PatchVersions, WellFormed, SameShape, Located, LocTick;
  }

  predicate ColumnTakes(spec: TableSpec, column: string, value: Json) {
    var col := ColumnIndex(spec.fields, column);
    && col.Some?
    && Convert(value, spec.fields[col.value].dtype).Some?
    && (spec.fields[col.value].nullable || Convert(value, spec.fields[col.value].dtype).value.Some?)
  }

  lemma UpdateAlike(a: Table, b: Table, d: Diff)
    requires Alike(a, b) && d.Update? && UpdateTable(a, d.row, d.column, d.value).error.None?
    ensures var o := UpdateTable(b, d.row, d.column, d.value);
      (o.error.None? <==> Suits(d, b.positions, a.versions)) &&
      (o.error.None? ==> Alike(UpdateTable(a, d.row, d.column, d.value).table, o.table))
  {
    UniformKept(a, b);
    UpdateSucceedsIff(a, d.row, d.column, d.value);
    UpdateSucceedsIff(b, d.row, d.column, d.value);
    if d.row in b.positions {
      LocatedAlike(a, b, b.positions[d.row]);
    }
    var a', b' := UpdateTable(a, d.row, d.column, d.value), UpdateTable(b, d.row, d.column, d.value);
    UpdateKeepsSpec(a, d);
    UpdateKeepsSpec(b, d);
    if b'.error.None? {
      ShapesChain(a.versions, b.versions, a'.table.versions, b'.table.versions);
      UniformKept(a, a'.table);
    }
    hide UpdateTable, SameShape, Located, ColumnTakes, UniformSchema, BatchesWellFormed;
  }

  lemma UpdateKeepsSpec(t: Table, d: Diff)
    requires BatchesWellFormed(t.versions) && d.Update?
    ensures UpdateTable(t, d.row, d.column, d.value).table.spec == t.spec
  {
    hide LocateError, UpdatePatch, PatchVersions, WellFormed;
  }

  lemma DeleteSucceedsIff(t: Table, row: RowId)
    requires BatchesWellFormed(t.versions)
    ensures DeleteRow(t, row).error.None? <==> row in t.positions && Located(t.versions, t.positions[row])
    ensures DeleteRow(t, row).error.None? ==>
      SameShape(t.versions, DeleteRow(t, row).table.versions) && BatchesWellFormed(DeleteRow(t, row).table.versions)
    ensures DeleteRow(t, row).table.spec == t.spec
  {
    if row in t.positions && Located(t.versions, t.positions[row]) {
      var p := t.positions[row];
      PatchInPlace(t.versions, p, NullPatch(BatchOf(t.versions, p), p.1));
    }
    hide NullPatch, PatchVersions, WellFormed, SameShape, Located, LocTick;
  }

  lemma DeleteAlike(a: Table, b: Table, d: Diff)
    requires Alike(a, b) && d.Delete? && DeleteRow(a, d.row).error.None?
    ensures var o := DeleteRow(b, d.row);
      (o.error.None? <==> Suits(d, b.positions, a.versions)) &&
        (o.error.None? ==> Alike(DeleteRow(a, d.row).table, o.table))
  {
    UniformKept(a, b);
    DeleteSucceedsIff(a, d.row);
    DeleteSucceedsIff(b, d.row);
    if d.row in b.positions {
      LocatedAlike(a, b, b.positions[d.row]);
    }
    var a', b' := DeleteRow(a, d.row), DeleteRow(b, d.row);
    if b'.error.None? {
      ShapesChain(a.versions, b.versions, a'.table.versions, b'.table.versions);
      UniformKept(a, a'.table);
    }
    hide DeleteRow, SameShape, Located, UniformSchema, BatchesWellFormed;
  }

  lemma InsertAlike(a: Table, b: Table, tick: Tick, d: Diff)
    requires Alike(a, b) && d.Insert? && InsertRow(a, tick, d.row, d.values).error.None?
    ensures var o := InsertRow(b, tick, d.row, d.values);
      (o.error.None? <==> Suits(d, b.positions, a.versions)) &&
      (o.error.None? ==> Alike(InsertRow(a, tick, d.row, d.values).table, o.table))
  {
    var batch := RowToBatch(d.values, a.spec.fields).value;
    hide RowToBatch, IndexAfterInsert, WellFormed;
    assert batch.schema == a.spec.fields && WellFormed(batch);
    if d.row !in b.positions {
      AppendAlike(a, b, tick, batch, InsertRow(a, tick, d.row, d.values).table,
        InsertRow(b, tick, d.row, d.values).table);
    }
  }

  lemma AppendAlike(a: Table, b: Table, tick: Tick, batch: Batch, a': Table, b': Table)
    requires Alike(a, b) && batch.schema == a.spec.fields && WellFormed(batch)
    requires a'.spec == a.spec && b'.spec == b.spec
    requires a'.versions == a.versions[tick := BatchesAt(a.versions, tick) + [batch]]
    requires b'.versions == b.versions[tick := BatchesAt(b.versions, tick) + [batch]]
    ensures Alike(a', b')
  {
    hide WellFormed;
    assert SameBatchShape(batch, batch);
    forall k, i | k in a'.versions && 0 <= i < |a'.versions[k]|
      ensures SameBatchShape(a'.versions[k][i], b'.versions[k][i])
    {
      if k in a.versions && i < |a.versions[k]| {
        assert SameBatchShape(a.versions[k][i], b.versions[k][i]);
      }
    }
    hide SameBatchShape;
  }

  lemma ReplaceAlike(a: Table, b: Table, tick: Tick, d: Diff)
    requires Alike(a, b) && d.ReplaceTable? && ReplaceAll(a, tick, d.rows).error.None?
    ensures ReplaceAll(b, tick, d.rows).error.None?
    ensures Alike(ReplaceAll(a, tick, d.rows).table, ReplaceAll(b, tick, d.rows).table)
  {
    ReplaceKeepsWellFormed(a, tick, d.rows);
    ReplaceKeepsWellFormed(b, tick, d.rows);
    ReplaceRowsCollect(a.spec, d.rows, |d.rows|);
    var batches := ReplaceRows(a.spec, d.rows, |d.rows|).batches;
    hide ReplaceRows, WellFormed;
    assert forall i :: 0 <= i < |batches| ==> SingleRowBatch(a.spec, batches[i]);
    SetAlike(a, b, tick, batches, ReplaceAll(a, tick, d.rows).table, ReplaceAll(b, tick, d.rows).table);
  }

  lemma SetAlike(a: Table, b: Table, tick: Tick, batches: seq<Batch>, a': Table, b': Table)
    requires Alike(a, b) && forall i :: 0 <= i < |batches| ==> SingleRowBatch(a.spec, batches[i])
    requires a'.spec == a.spec && b'.spec == b.spec
    requires a'.versions == a.versions[tick := batches] && b'.versions == b.versions[tick := batches]
    ensures Alike(a', b')
  {
    hide WellFormed;
    forall k, i | k in a'.versions && 0 <= i < |a'.versions[k]|
      ensures SameBatchShape(a'.versions[k][i], b'.versions[k][i])
    {
      if k != tick {
        assert SameBatchShape(a.versions[k][i], b.versions[k][i]);
      }
    }
  }

  /** On alike tables a diff that succeeds on the one succeeds on the other exactly if it suits that one's
      positions, and leaves them alike. */
  lemma DiffAlike(a: Table, b: Table, tick: Tick, d: Diff)
    requires Alike(a, b) && ApplyDiff(a, tick, d).error.None?
    ensures ApplyDiff(b, tick, d).error.None? <==> Suits(d, b.positions, a.versions)
    ensures ApplyDiff(b, tick, d).error.None? ==> Alike(ApplyDiff(a, tick, d).table, ApplyDiff(b, tick, d).table)
  {
    match d {
      case Update(_, _, _, _) => UpdateAlike(a, b, d);
      case Delete(_, _) => DeleteAlike(a, b, d);
      case Insert(_, _, _) => InsertAlike(a, b, tick, d);
      case ReplaceTable(_, _) => ReplaceAlike(a, b, tick, d);
    }
    hide UpdateTable, DeleteRow, InsertRow, ReplaceAll, SameShape, UniformSchema, BatchesWellFormed, Located;
  }

  // ---------------------------------------------------------------- batches on alike tables

  ghost predicate AllAlike(a: TableMap, b: TableMap) {
    a.Keys == b.Keys && forall n :: n in a ==> Alike(a[n], b[n])
  }

  lemma OneAlike(a: TableMap, b: TableMap, tick: Tick, d: Diff)
    requires TablesWellFormed(a) && TablesWellFormed(b) && AllAlike(a, b) && ApplyOne(a, tick, d).error.None?
    ensures d.name in a && d.name in b
    ensures ApplyOne(b, tick, d).error.None? <==> Suits(d, b[d.name].positions, a[d.name].versions)
    ensures ApplyOne(b, tick, d).error.None? ==> AllAlike(ApplyOne(a, tick, d).tables, ApplyOne(b, tick, d).tables)
  {
    DiffAlike(a[d.name], b[d.name], tick, d);
    hide ApplyDiff, Alike, Suits, BatchesWellFormed;
  }

  /** The i-th diff suits the positions to which the earlier ones bring the other tables. */
  predicate SuitsAt(tables: TableMap, other: TableMap, tick: Tick, diffs: seq<Diff>, i: int)
    requires TablesWellFormed(tables) && 0 <= i < |diffs|
  {
    var d := diffs[i];
    && d.name in tables && d.name in other
    && Suits(d, LandedIn(other, tick, diffs[..i], d.name).positions,
             ApplyEach(tables, tick, diffs[..i]).tables[d.name].versions)
  }

  predicate AllSuit(tables: TableMap, other: TableMap, tick: Tick, diffs: seq<Diff>, n: int)
    requires TablesWellFormed(tables) && 0 <= n <= |diffs|
  {
    forall i :: 0 <= i < n ==> SuitsAt(tables, other, tick, diffs, i)
  }

  lemma SuitsAtPrefix(tables: TableMap, other: TableMap, tick: Tick, diffs: seq<Diff>, n: nat, i: nat)
    requires TablesWellFormed(tables) && i < n <= |diffs|
    ensures SuitsAt(tables, other, tick, diffs[..n], i) <==> SuitsAt(tables, other, tick, diffs, i)
  {
    assert diffs[..n][..i] == diffs[..i];
    hide Suits, LandedIn, ApplyEach, TablesWellFormed;
  }

  lemma AllSuitPrefix(tables: TableMap, other: TableMap, tick: Tick, diffs: seq<Diff>, n: nat)
    requires TablesWellFormed(tables) && n <= |diffs|
    ensures AllSuit(tables, other, tick, diffs[..n], n) <==> AllSuit(tables, other, tick, diffs, n)
  {
    forall i: nat | i < n
      ensures SuitsAt(tables, other, tick, diffs[..n], i) <==> SuitsAt(tables, other, tick, diffs, i)
    {
      SuitsAtPrefix(tables, other, tick, diffs, n, i);
    }
    hide SuitsAt, TablesWellFormed;
  }

  lemma PrefixApplies(tables: TableMap, tick: Tick, diffs: seq<Diff>)
    requires TablesWellFormed(tables) && diffs != [] && ApplyEach(tables, tick, diffs).error.None?
    ensures ApplyEach(tables, tick, diffs[..|diffs| - 1]).error.None?
    ensures ApplyEach(tables, tick, diffs) ==
      ApplyOne(ApplyEach(tables, tick, diffs[..|diffs| - 1]).tables, tick, diffs[|diffs| - 1])
  {
    hide ApplyOne, TablesWellFormed;
  }

  /** A batch that applies to some tables applies to alike ones exactly when each of its diffs suits. */
  lemma {:induction false} BatchAlike(tables: TableMap, other: TableMap, tick: Tick, diffs: seq<Diff>)
    requires TablesWellFormed(tables) && TablesWellFormed(other) && AllAlike(tables, other)
    requires ApplyEach(tables, tick, diffs).error.None?
    ensures ApplyEach(other, tick, diffs).error.None? <==> AllSuit(tables, other, tick, diffs, |diffs|)
    ensures ApplyEach(other, tick, diffs).error.None? ==>
      AllAlike(ApplyEach(tables, tick, diffs).tables, ApplyEach(other, tick, diffs).tables)
  {
    if diffs == [] {
      return;
    }
    hide ApplyOne, TablesWellFormed, AllAlike, SuitsAt, LandedIn;
    var n := |diffs| - 1;
    var before, d := diffs[..n], diffs[n];
    PrefixApplies(tables, tick, diffs);
    BatchAlike(tables, other, tick, before);
    AllSuitPrefix(tables, other, tick, diffs, n);
    if ApplyEach(other, tick, before).error.None? {
      LastSuits(tables, other, tick, diffs);
    }
  }

  lemma LastSuits(tables: TableMap, other: TableMap, tick: Tick, diffs: seq<Diff>)
    requires TablesWellFormed(tables) && TablesWellFormed(other) && diffs != [] && tables.Keys == other.Keys
    requires ApplyEach(tables, tick, diffs).error.None?
    requires ApplyEach(other, tick, diffs[..|diffs| - 1]).error.None?
    requires AllAlike(ApplyEach(tables, tick, diffs[..|diffs| - 1]).tables,
      ApplyEach(other, tick, diffs[..|diffs| - 1]).tables)
    ensures ApplyEach(other, tick, diffs).error.None? <==> SuitsAt(tables, other, tick, diffs, |diffs| - 1)
    ensures ApplyEach(other, tick, diffs).error.None? ==>
      AllAlike(ApplyEach(tables, tick, diffs).tables, ApplyEach(other, tick, diffs).tables)
  {
    hide ApplyOne, ApplyEach, AllAlike, Suits, LandedIn, Traced, Applied, TablesWellFormed;
    var n := |diffs| - 1;
    var d := diffs[n];
    PrefixApplies(tables, tick, diffs);
    var a, b := ApplyEach(tables, tick, diffs[..n]).tables, ApplyEach(other, tick, diffs[..n]).tables;
    OneAlike(a, b, tick, d);
    ApplyEachLands(other, tick, diffs[..n], d.name);
    AppliedTraces(other, tick, diffs[..n]);
    OneStep(other, tick, diffs);
  }

  lemma OneStep(tables: TableMap, tick: Tick, diffs: seq<Diff>)
    requires TablesWellFormed(tables) && diffs != [] && ApplyEach(tables, tick, diffs[..|diffs| - 1]).error.None?
    ensures ApplyEach(tables, tick, diffs) ==
      ApplyOne(ApplyEach(tables, tick, diffs[..|diffs| - 1]).tables, tick, diffs[|diffs| - 1])
  {
    hide ApplyOne, TablesWellFormed;
  }

  lemma AppliedTraces(tables: TableMap, tick: Tick, diffs: seq<Diff>)
    requires TablesWellFormed(tables) && ApplyEach(tables, tick, diffs).error.None?
    ensures Traced(diffs, Applied(tables, tick, diffs)) == diffs
  {
    hide ApplyEach, TablesWellFormed;
  }

  // ---------------------------------------------------------------- landing twice

  function PlaceIn(positions: map<RowId, Position>, row: RowId): Option<Position> {
    if row in positions then Some(positions[row]) else None
  }

  /** Where diffs land a row they have an effect on does not depend on where the rows were; other rows stay. */
  lemma {:induction false} LandedMeets(spec: TableSpec, tick: Tick, s: Landing, s': Landing, diffs: seq<Diff>,
                                       name: string, row: RowId)
    requires s.count == s'.count
    ensures var l, l' := Landed(spec, tick, s, diffs, name), Landed(spec, tick, s', diffs, name);
      && l.count == l'.count
      && (if LastEffect(spec, diffs, name, row).Some? then PlaceIn(l.positions, row) == PlaceIn(l'.positions, row)
          else (PlaceIn(l.positions, row) == PlaceIn(s.positions, row) &&
                PlaceIn(l'.positions, row) == PlaceIn(s'.positions, row)))
  {
    if diffs != [] {
      LandedMeets(spec, tick, s, s', diffs[..|diffs| - 1], name, row);
      hide ReplaceRows, Inserted, KeyText, SchemaResolves, CarriesKey;
    }
  }

  lemma SamePlaces(a: map<RowId, Position>, b: map<RowId, Position>)
    requires forall row :: PlaceIn(a, row) == PlaceIn(b, row)
    ensures a == b
  {
    forall row: RowId ensures row in a <==> row in b {
      assert PlaceIn(a, row) == PlaceIn(b, row);
    }
    forall row | row in a ensures row in b && a[row] == b[row] {
      assert PlaceIn(a, row) == PlaceIn(b, row);
    }
    assert a.Keys == b.Keys;
  }

  /** Landing a second time moves nothing. */
  lemma LandedTwice(spec: TableSpec, tick: Tick, s: Landing, again: Landing, diffs: seq<Diff>, name: string)
    requires again.count == s.count && again.positions == Landed(spec, tick, s, diffs, name).positions
    ensures Landed(spec, tick, again, diffs, name).positions == again.positions
  {
    var twice := Landed(spec, tick, again, diffs, name).positions;
    forall row ensures PlaceIn(twice, row) == PlaceIn(again.positions, row) {
      LandedMeets(spec, tick, s, again, diffs, name, row);
    }
    hide Landed, PlaceIn;
    SamePlaces(twice, again.positions);
  }

  /** The index has no say in where rows land. */
  lemma LandedAlike(spec: TableSpec, tick: Tick, s: Landing, s': Landing, diffs: seq<Diff>, name: string)
    requires s.count == s'.count && s.positions == s'.positions
    ensures Landed(spec, tick, s, diffs, name).positions == Landed(spec, tick, s', diffs, name).positions
  {
    var l, l' := Landed(spec, tick, s, diffs, name).positions, Landed(spec, tick, s', diffs, name).positions;
    forall row ensures PlaceIn(l, row) == PlaceIn(l', row) {
      LandedMeets(spec, tick, s, s', diffs, name, row);
    }
    hide Landed, PlaceIn;
    SamePlaces(l, l');
  }

  // ---------------------------------------------------------------- the fate of a batch

  ghost predicate Uniform(tables: TableMap) {
    forall n :: n in tables ==> UniformSchema(tables[n])
  }

  lemma VersionsMakeAlike(tables: TableMap, other: TableMap)
    requires TablesWellFormed(tables) && Uniform(tables) && SameVersions(tables, other)
    ensures TablesWellFormed(other) && AllAlike(tables, other)
  {
    hide WellFormed;
  }

  predicate SamePositions(a: TableMap, b: TableMap) {
    a.Keys == b.Keys && forall n :: n in a ==> a[n].positions == b[n].positions
  }

  /** The batch, applied and rolled back, suits the positions it left. */
  predicate Reapplies(tables: TableMap, tick: Tick, diffs: seq<Diff>)
    requires TablesWellFormed(tables)
  {
    AllSuit(tables, RolledBack(tables, tick, diffs), tick, diffs, |diffs|)
  }

  /** Exactly when a rolled-back batch applies again at its tick. */
  lemma RetryAppliesIff(tables: TableMap, tick: Tick, diffs: seq<Diff>)
    requires TablesWellFormed(tables) && Uniform(tables) && ApplyEach(tables, tick, diffs).error.None?
    ensures ApplyEach(RolledBack(tables, tick, diffs), tick, diffs).error.None? <==> Reapplies(tables, tick, diffs)
  {
    RollbackRestoresVersions(tables, tick, diffs);
    VersionsMakeAlike(tables, RolledBack(tables, tick, diffs));
    BatchAlike(tables, RolledBack(tables, tick, diffs), tick, diffs);
    hide ApplyEach, RolledBack, AllSuit, TablesWellFormed, SameVersions, Uniform;
  }

  lemma SuitsByPositions(tables: TableMap, other: TableMap, other': TableMap, tick: Tick, diffs: seq<Diff>, i: nat)
    requires TablesWellFormed(tables) && i < |diffs| && SameVersions(other, other')
    requires diffs[i].name in other && LandedIn(other, tick, diffs[..i], diffs[i].name).positions ==
                                       LandedIn(other', tick, diffs[..i], diffs[i].name).positions
    ensures SuitsAt(tables, other, tick, diffs, i) <==> SuitsAt(tables, other', tick, diffs, i)
  {
    hide Suits, LandedIn, ApplyEach, TablesWellFormed;
  }

  /** A batch that suits keeps suiting: applying and rolling it back again leaves the same positions. */
  lemma SuitingStays(tables: TableMap, other: TableMap, tick: Tick, diffs: seq<Diff>)
    requires TablesWellFormed(tables) && Uniform(tables) && ApplyEach(tables, tick, diffs).error.None?
    requires SameVersions(tables, other) && SamePositions(other, RolledBack(tables, tick, diffs))
    ensures TablesWellFormed(other)
    ensures ApplyEach(other, tick, diffs).error.None? <==> Reapplies(tables, tick, diffs)
    ensures Reapplies(tables, tick, diffs) ==>
      SamePositions(RolledBack(other, tick, diffs), RolledBack(tables, tick, diffs))
  {
    var back := RolledBack(tables, tick, diffs);
    VersionsMakeAlike(tables, other);
    BatchAlike(tables, other, tick, diffs);
    RollbackRestoresVersions(tables, tick, diffs);
    VersionsChain(tables, other, back);
    SuitingByPositions(tables, other, back, tick, diffs);
    if Reapplies(tables, tick, diffs) {
      forall n | n in tables ensures RolledBack(other, tick, diffs)[n].positions == back[n].positions {
        SecondRollback(tables, other, tick, diffs, n);
      }
      RollbackRestoresVersions(other, tick, diffs);
      hide RolledBack, ApplyEach, AllSuit, TablesWellFormed, Uniform;
    }
  }

  lemma VersionsChain(a: TableMap, b: TableMap, c: TableMap)
    requires SameVersions(a, b) && SameVersions(a, c)
    ensures SameVersions(b, c)
  {
  }

  lemma SuitingByPositions(tables: TableMap, other: TableMap, other': TableMap, tick: Tick, diffs: seq<Diff>)
    requires TablesWellFormed(tables) && SameVersions(other, other') && SamePositions(other, other')
    ensures AllSuit(tables, other, tick, diffs, |diffs|) <==> AllSuit(tables, other', tick, diffs, |diffs|)
  {
    forall i: nat | i < |diffs|
      ensures SuitsAt(tables, other, tick, diffs, i) <==> SuitsAt(tables, other', tick, diffs, i)
    {
      var n := diffs[i].name;
      if n in other {
        LandedAlike(other[n].spec, tick, LandingOf(other[n], tick), LandingOf(other'[n], tick), diffs[..i], n);
        SuitsByPositions(tables, other, other', tick, diffs, i);
      }
      hide Suits, Landed, ApplyEach, TablesWellFormed;
    }
    hide SuitsAt, TablesWellFormed;
  }

  lemma SecondRollback(tables: TableMap, other: TableMap, tick: Tick, diffs: seq<Diff>, n: string)
    requires TablesWellFormed(tables) && TablesWellFormed(other) && n in tables
    requires ApplyEach(tables, tick, diffs).error.None? && ApplyEach(other, tick, diffs).error.None?
    requires SameVersions(tables, other) && SamePositions(other, RolledBack(tables, tick, diffs))
    ensures RolledBack(other, tick, diffs)[n].positions == RolledBack(tables, tick, diffs)[n].positions
  {
    RollbackLeaves(tables, tick, diffs, n);
    AppliedTraces(tables, tick, diffs);
    RollbackLeaves(other, tick, diffs, n);
    AppliedTraces(other, tick, diffs);
    LandedTwice(tables[n].spec, tick, LandingOf(tables[n], tick), LandingOf(other[n], tick), diffs, n);
    hide ApplyEach, RolledBack, Landed, Applied, Traced, TablesWellFormed;
  }

  // ---------------------------------------------------------------- a batch that does not suit never will

  lemma {:induction false} ErrorPersists(tables: TableMap, tick: Tick, diffs: seq<Diff>, n: nat)
    requires TablesWellFormed(tables) && n <= |diffs| && ApplyEach(tables, tick, diffs[..n]).error.Some?
    ensures ApplyEach(tables, tick, diffs).error.Some?
    ensures Applied(tables, tick, diffs) == Applied(tables, tick, diffs[..n])
    decreases |diffs|
  {
    if n == |diffs| {
      assert diffs[..n] == diffs;
    } else {
      assert diffs[..|diffs| - 1][..n] == diffs[..n];
      ErrorPersists(tables, tick, diffs[..|diffs| - 1], n);
    }
    hide ApplyOne, TablesWellFormed;
  }

  /** The first diff that fails is the first that does not suit, and it is no replacement. */
  lemma FirstUnsuited(tables: TableMap, other: TableMap, tick: Tick, diffs: seq<Diff>)
    requires TablesWellFormed(tables) && TablesWellFormed(other) && AllAlike(tables, other)
    requires ApplyEach(tables, tick, diffs).error.None? && ApplyEach(other, tick, diffs).error.Some?
    ensures var k := Applied(other, tick, diffs);
      k < |diffs| && !SuitsAt(tables, other, tick, diffs, k) && !diffs[k].ReplaceTable?
  {
    hide *;
    var k := Applied(other, tick, diffs);
    AppliedPrefix(other, tick, diffs);
    AppliedIsMost(other, tick, diffs, k);
    PrefixSuits(tables, other, tick, diffs, k);
    PrefixSuits(tables, other, tick, diffs, k + 1);
    AllSuitNext(tables, other, tick, diffs, k);
    if diffs[k].ReplaceTable? {
      AppliedIsAll(tables, tick, diffs, k + 1);
      AlikeKeys(tables, other);
      ReplacementSuits(tables, other, tick, diffs, k);
    }
  }

  lemma AlikeKeys(tables: TableMap, other: TableMap)
    requires AllAlike(tables, other)
    ensures tables.Keys == other.Keys
  {
  }

  lemma PrefixSuits(tables: TableMap, other: TableMap, tick: Tick, diffs: seq<Diff>, n: nat)
    requires TablesWellFormed(tables) && TablesWellFormed(other) && AllAlike(tables, other)
    requires ApplyEach(tables, tick, diffs).error.None? && n <= |diffs|
    ensures ApplyEach(other, tick, diffs[..n]).error.None? <==> AllSuit(tables, other, tick, diffs, n)
  {
    hide *;
    AppliedIsAll(tables, tick, diffs, n);
    BatchAlike(tables, other, tick, diffs[..n]);
    AllSuitPrefix(tables, other, tick, diffs, n);
  }

  lemma AllSuitNext(tables: TableMap, other: TableMap, tick: Tick, diffs: seq<Diff>, n: nat)
    requires TablesWellFormed(tables) && n < |diffs|
    ensures AllSuit(tables, other, tick, diffs, n + 1) <==>
      AllSuit(tables, other, tick, diffs, n) && SuitsAt(tables, other, tick, diffs, n)
    ensures AllSuit(tables, other, tick, diffs, |diffs|) ==> SuitsAt(tables, other, tick, diffs, n)
  {
    hide SuitsAt, TablesWellFormed;
  }

  lemma {:induction false} AppliedIsAll(tables: TableMap, tick: Tick, diffs: seq<Diff>, n: nat)
    requires TablesWellFormed(tables) && n <= |diffs| && ApplyEach(tables, tick, diffs).error.None?
    ensures ApplyEach(tables, tick, diffs[..n]).error.None?
  {
    if ApplyEach(tables, tick, diffs[..n]).error.Some? {
      ErrorPersists(tables, tick, diffs, n);
    }
    hide ApplyEach, TablesWellFormed;
  }

  lemma {:induction false} AppliedIsMost(tables: TableMap, tick: Tick, diffs: seq<Diff>, k: nat)
    requires TablesWellFormed(tables) && ApplyEach(tables, tick, diffs).error.Some? && k == Applied(tables, tick, diffs)
    ensures k < |diffs| && ApplyEach(tables, tick, diffs[..k + 1]).error.Some?
    decreases |diffs|
  {
    AppliedOfError(tables, tick, diffs);
    hide *;
    var before := diffs[..|diffs| - 1];
    if ApplyEach(tables, tick, before).error.Some? {
      AppliedIsMost(tables, tick, before, k);
      PrefixOfPrefix(diffs, k + 1);
    } else {
      WholePrefix(diffs, k + 1);
    }
  }

  lemma PrefixOfPrefix(diffs: seq<Diff>, n: nat)
    requires n < |diffs|
    ensures diffs[..|diffs| - 1][..n] == diffs[..n]
  {
  }

  lemma WholePrefix(diffs: seq<Diff>, n: nat)
    requires n == |diffs|
    ensures diffs[..n] == diffs
  {
  }

  lemma AppliedOfError(tables: TableMap, tick: Tick, diffs: seq<Diff>)
    requires TablesWellFormed(tables) && ApplyEach(tables, tick, diffs).error.Some?
    ensures diffs != []
    ensures var before := diffs[..|diffs| - 1];
      Applied(tables, tick, diffs) ==
        if ApplyEach(tables, tick, before).error.Some? then Applied(tables, tick, before) else |before|
  {
    hide ApplyOne, TablesWellFormed;
  }

  lemma ReplacementSuits(tables: TableMap, other: TableMap, tick: Tick, diffs: seq<Diff>, k: nat)
    requires TablesWellFormed(tables) && k < |diffs| && diffs[k].ReplaceTable? && tables.Keys == other.Keys
    requires ApplyEach(tables, tick, diffs[..k + 1]).error.None?
    ensures SuitsAt(tables, other, tick, diffs, k)
  {
    PrefixApplies(tables, tick, diffs[..k + 1]);
    assert diffs[..k + 1][..k] == diffs[..k];
    hide ApplyEach, LandedIn, ApplyDiff, TablesWellFormed;
  }

  /** A batch that does not suit fails, whatever is added to it, and its rollback leaves it unsuited. */
  lemma UnsuitedStays(tables: TableMap, other: TableMap, tick: Tick, diffs: seq<Diff>, pending: seq<Diff>)
    requires TablesWellFormed(tables) && Uniform(tables) && ApplyEach(tables, tick, diffs).error.None?
    requires SameVersions(tables, other) && |diffs| <= |pending| && pending[..|diffs|] == diffs
    requires !AllSuit(tables, other, tick, diffs, |diffs|)
    ensures TablesWellFormed(other) && ApplyEach(other, tick, pending).error.Some?
    ensures !AllSuit(tables, RolledBack(other, tick, pending), tick, diffs, |diffs|)
  {
    hide *;
    VersionsMakeAlike(tables, other);
    BatchAlike(tables, other, tick, diffs);
    FirstUnsuited(tables, other, tick, diffs);
    ErrorPersists(other, tick, pending, |diffs|);
    var k := Applied(other, tick, diffs);
    assert pending[..k] == diffs[..k] && pending[k] == diffs[k];
    UnsuitedAt(tables, other, tick, diffs, pending, k);
    AllSuitNext(tables, RolledBack(other, tick, pending), tick, diffs, k);
  }

  lemma UnsuitedAt(tables: TableMap, other: TableMap, tick: Tick, diffs: seq<Diff>, pending: seq<Diff>, k: nat)
    requires TablesWellFormed(tables) && TablesWellFormed(other) && k < |diffs| && k < |pending|
    requires pending[..k] == diffs[..k] && pending[k] == diffs[k] && !diffs[k].ReplaceTable?
    requires Applied(other, tick, pending) == k && !SuitsAt(tables, other, tick, diffs, k)
    ensures !SuitsAt(tables, RolledBack(other, tick, pending), tick, diffs, k)
  {
    var n, back := diffs[k].name, RolledBack(other, tick, pending);
    RollbackRestoresVersions(other, tick, pending);
    if n in other {
      RollbackLeaves(other, tick, pending, n);
      LandedTwice(other[n].spec, tick, LandingOf(other[n], tick), LandingOf(back[n], tick), diffs[..k], n);
      hide ApplyEach, RolledBack, Landed, Suits, TablesWellFormed, Applied;
      SuitsByPositions(tables, other, back, tick, diffs, k);
    }
  }

  // ---------------------------------------------------------------- a balanced batch that does not suit

  /** A table fit for deleting and inserting a row at a tick: the row is live and located, and no version is later. */
  ghost predicate Fit(t: Table, tick: Tick, row: RowId) {
    && BatchesWellFormed(t.versions) && t.spec == EMPTY_TABLE.spec
    && row in t.positions && Located(t.versions, t.positions[row])
    && forall u :: u in t.versions ==> u <= tick
  }

  /** Deleting and inserting a row succeeds, and the row lands in a new batch of the tick. */
  lemma Reinsert(t: Table, tick: Tick, row: RowId, n: i64) returns (mid: Table, after: Table)
    requires Fit(t, tick, row)
    ensures BatchesWellFormed(mid.versions)
    ensures ApplyDiff(t, tick, Diff.Delete("t", row)) == Outcome(mid, None)
    ensures ApplyDiff(mid, tick, Diff.Insert("t", row, OneCell(n))) == Outcome(after, None)
    ensures Fit(after, tick, row) && after.positions == t.positions[row := (|BatchesAt(t.versions, tick)|, 0)]
    ensures |BatchesAt(after.versions, tick)| == |BatchesAt(t.versions, tick)| + 1
  {
    DeleteSucceedsIff(t, row);
    mid := DeleteRow(t, row).table;
    OneCellBatch(n);
    hide DeleteRow, RowToBatch, IndexAfterInsert, OneCell;
    assert mid.positions == t.positions - {row} by { DeletedPositions(t, row); }
    after := InsertRow(mid, tick, row, OneCell(n)).table;
    var b := |BatchesAt(t.versions, tick)|;
    assert |BatchesAt(mid.versions, tick)| == b;
    NewBatchLocated(mid.versions, tick, RowToBatch(OneCell(n), mid.spec.fields).value, after.versions);
    assert after.positions == t.positions[row := (b, 0)];
  }

  lemma DeletedPositions(t: Table, row: RowId)
    requires BatchesWellFormed(t.versions) && DeleteRow(t, row).error.None?
    ensures DeleteRow(t, row).table.positions == t.positions - {row}
  {
    hide NullPatch, Patched, WellFormed;
  }

  lemma NewBatchLocated(versions: Versions, tick: Tick, batch: Batch, after: Versions)
    requires BatchesWellFormed(versions) && WellFormed(batch) && NumRows(batch) == 1
    requires forall u :: u in versions ==> u <= tick
    requires after == versions[tick := BatchesAt(versions, tick) + [batch]]
    ensures BatchesWellFormed(after) && Located(after, (|BatchesAt(versions, tick)|, 0))
  {
    var b := |BatchesAt(versions, tick)|;
    assert tick in TicksWith(after, b);
    hide WellFormed;
    assert LocTick(after, b) == Some(tick);
  }

  lemma ApplyMore(tables: TableMap, tick: Tick, diffs: seq<Diff>, d: Diff)
    requires TablesWellFormed(tables) && ApplyEach(tables, tick, diffs).error.None?
    ensures ApplyEach(tables, tick, diffs + [d]) == ApplyOne(ApplyEach(tables, tick, diffs).tables, tick, d)
  {
    assert (diffs + [d])[..|diffs|] == diffs;
    hide ApplyOne, TablesWellFormed;
  }

  lemma ApplyToOnly(t: Table, tick: Tick, d: Diff)
    requires BatchesWellFormed(t.versions) && d.name == "t"
    ensures TablesWellFormed(map["t" := t])
    ensures ApplyOne(map["t" := t], tick, d) ==
      BatchOutcome(map["t" := ApplyDiff(t, tick, d).table], ApplyDiff(t, tick, d).error)
  {
    assert map["t" := t]["t" := ApplyDiff(t, tick, d).table] == map["t" := ApplyDiff(t, tick, d).table];
    hide ApplyDiff;
  }

  function OneRow(): Table {
    InsertRow(EMPTY_TABLE, 0, 7, OneCell(10)).table
  }

  lemma OneRowFits()
    ensures Fit(OneRow(), 1, 7) && UniformSchema(OneRow())
    ensures OneRow().positions == map[7 := (0, 0)] && OneRow().versions.Keys == {0} && |OneRow().versions[0]| == 1
  {
    OneCellBatch(10);
    hide RowToBatch;
    var t := OneRow();
    assert TicksWith(t.versions, 0) == {0};
  }

  function Reinserts(): seq<Diff> {
    [Diff.Delete("t", 7), Diff.Insert("t", 7, OneCell(20))] + [Diff.Delete("t", 7), Diff.Insert("t", 7, OneCell(20))]
  }

  /** One row deleted and inserted twice: every row is balanced, the batch applies, and it never applies again. The row
      has landed in a second batch of the open tick, which the rollback removes, so even its first diff finds no such
      batch in any tick. */
  lemma BalancedStuckWitness()
    ensures var tables := map["t" := OneRow()];
      && TablesWellFormed(tables) && Uniform(tables) && ApplyEach(tables, 1, Reinserts()).error.None?
      && (forall row :: !Unbalanced(OneRow().spec, Reinserts(), "t", row))
      && !Reapplies(tables, 1, Reinserts())
  {
    OneRowFits();
    hide RolledBack, ApplyEach, OneRow, Unbalanced, Reinserts, AllSuit, Located, BatchesWellFormed;
    var t := OneRow();
    var tables: TableMap := map["t" := t];
    ReinsertsApply(t);
    RollbackKeepsLandings(tables, 1, Reinserts(), "t");
    RollbackRestoresVersions(tables, 1, Reinserts());
    forall row ensures !Unbalanced(t.spec, Reinserts(), "t", row) {
      ReinsertsBalanced(t.spec, row);
    }
    var back := RolledBack(tables, 1, Reinserts());
    assert back["t"].positions == map[7 := (1, 0)];
    NoSecondBatch(tables, back);
    FirstDoesNotSuit(tables, back);
  }

  lemma NoSecondBatch(tables: TableMap, back: TableMap)
    requires "t" in tables && tables["t"].versions.Keys == {0} && |tables["t"].versions[0]| == 1
    ensures !Located(tables["t"].versions, (1, 0))
  {
    assert TicksWith(tables["t"].versions, 1) == {};
  }

  lemma FirstDoesNotSuit(tables: TableMap, back: TableMap)
    requires TablesWellFormed(tables) && "t" in tables && "t" in back && back["t"].positions == map[7 := (1, 0)]
    requires !Located(tables["t"].versions, (1, 0))
    ensures !AllSuit(tables, back, 1, Reinserts(), |Reinserts()|)
  {
    assert Reinserts()[..0] == [] && Reinserts()[0] == Diff.Delete("t", 7);
    assert LandedIn(back, 1, [], "t").positions == back["t"].positions;
    hide Located;
    assert !SuitsAt(tables, back, 1, Reinserts(), 0);
  }

  lemma ReinsertsApply(t: Table)
    requires Fit(t, 1, 7) && |BatchesAt(t.versions, 1)| == 0
    ensures var tables := map["t" := t];
      TablesWellFormed(tables) && ApplyEach(tables, 1, Reinserts()).error.None? &&
      ApplyEach(tables, 1, Reinserts()).tables["t"].positions == t.positions[7 := (1, 0)]
  {
    var delete, insert := Diff.Delete("t", 7), Diff.Insert("t", 7, OneCell(20));
    hide OneCell, ApplyDiff, ApplyEach, ApplyOne, Fit, Reinserts, TablesWellFormed, BatchesAt;
    var m1, t1 := Reinsert(t, 1, 7, 20);
    var m2, t2 := Reinsert(t1, 1, 7, 20);
    FitIsWellFormed(t);
    FitIsWellFormed(t1);
    OnlyWellFormed(t);
    ApplyNothing(map["t" := t], 1);
    TwoMore(t, 1, [], delete, insert, t, m1, t1);
    TwoMore(t, 1, [] + [delete] + [insert], delete, insert, t1, m2, t2);
    ReinsertsAre(delete, insert);
    LandedLast(t.positions);
  }

  lemma OnlyWellFormed(t: Table)
    requires BatchesWellFormed(t.versions)
    ensures TablesWellFormed(map["t" := t])
  {
    hide BatchesWellFormed;
  }

  lemma LandedLast(positions: map<RowId, Position>)
    ensures positions[7 := (0, 0)][7 := (1, 0)] == positions[7 := (1, 0)]
  {
  }

  lemma ReinsertsAre(delete: Diff, insert: Diff)
    requires delete == Diff.Delete("t", 7) && insert == Diff.Insert("t", 7, OneCell(20))
    ensures Reinserts() == [] + [delete] + [insert] + [delete] + [insert]
  {
    hide OneCell;
  }

  lemma TwoMore(start: Table, tick: Tick, diffs: seq<Diff>, x: Diff, y: Diff, t: Table, mid: Table, after: Table)
    requires TablesWellFormed(map["t" := start])
    requires BatchesWellFormed(t.versions) && BatchesWellFormed(mid.versions) && x.name == "t" && y.name == "t"
    requires ApplyEach(map["t" := start], tick, diffs) == BatchOutcome(map["t" := t], None)
    requires ApplyDiff(t, tick, x) == Outcome(mid, None) && ApplyDiff(mid, tick, y) == Outcome(after, None)
    ensures ApplyEach(map["t" := start], tick, diffs + [x] + [y]) == BatchOutcome(map["t" := after], None)
  {
    hide *;
    ApplyToOnly(t, tick, x);
    ApplyToOnly(mid, tick, y);
    ApplyMore(map["t" := start], tick, diffs, x);
    ApplyMore(map["t" := start], tick, diffs + [x], y);
  }

  lemma FitIsWellFormed(t: Table)
    requires Fit(t, 1, 7)
    ensures BatchesWellFormed(t.versions)
  {
  }

  lemma ApplyNothing(tables: TableMap, tick: Tick)
    requires TablesWellFormed(tables)
    ensures ApplyEach(tables, tick, []) == BatchOutcome(tables, None)
  {
  }

  lemma ReinsertsBalanced(spec: TableSpec, row: RowId)
    ensures !Unbalanced(spec, Reinserts(), "t", row)
  {
    var diffs := Reinserts();
    var delete, insert := diffs[0], diffs[3];
    hide OneCell;
    assert FirstUse(diffs[..1], "t", row) == Use(delete, "t", row) by { assert diffs[..1][..0] == []; }
    FirstUseStays(diffs, 1, "t", row);
    if row != 7 {
      OtherRowUnused(diffs, row);
    }
  }

  lemma {:induction false} OtherRowUnused(diffs: seq<Diff>, row: RowId)
    requires forall d :: d in diffs ==> (d.Delete? || d.Insert?) && d.row != row
    ensures FirstUse(diffs, "t", row).None?
  {
    if diffs != [] {
      OtherRowUnused(diffs[..|diffs| - 1], row);
    }
  }
}
