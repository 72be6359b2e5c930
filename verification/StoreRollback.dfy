/** What putting saved versions back undoes, and what it does not. */
module StoreRollback {
  import opened Machine
  import opened Batches
  import opened KeyIndexes
  import opened Tables
  import opened TableRefinement
  import opened Stores

  /** A rolled-back batch: applied to some tables, then the touched tables' versions put back. */
  function RolledBack(tables: TableMap, tick: Tick, diffs: seq<Diff>): (r: TableMap)
    requires TablesWellFormed(tables)
    ensures TablesWellFormed(r)
  {
    Restored(ApplyEach(tables, tick, diffs).tables, Saved(tables, Touched(diffs)))
  }

  /** Two table maps that agree on everything but positions and indexes. */
  predicate SameVersions(a: TableMap, b: TableMap) {
    a.Keys == b.Keys && forall n :: n in a ==> a[n].spec == b[n].spec && a[n].versions == b[n].versions
  }

  predicate UpdatesOnly(diffs: seq<Diff>) {
    forall d :: d in diffs ==> d.Update?
  }

  lemma DiffKeepsSpec(t: Table, tick: Tick, d: Diff)
    requires BatchesWellFormed(t.versions)
    ensures ApplyDiff(t, tick, d).table.spec == t.spec
    ensures d.Update? ==>
      ApplyDiff(t, tick, d).table.positions == t.positions && ApplyDiff(t, tick, d).table.index == t.index
  {
    hide LocateError, RowToBatch, ReplaceRows, UpdatePatch, NullPatch, PatchVersions, WellFormed;
  }

  /** Only named tables change, no spec does, and updates leave positions, indexes and the set of ticks alone. */
  predicate Framed(tables: TableMap, after: TableMap, names: set<string>, updatesOnly: bool) {
    after.Keys == tables.Keys &&
    forall n :: n in tables ==>
      after[n].spec == tables[n].spec &&
      (n !in names ==> after[n] == tables[n]) &&
      (updatesOnly ==> after[n].positions == tables[n].positions && after[n].index == tables[n].index) &&
      (updatesOnly ==> after[n].versions.Keys == tables[n].versions.Keys)
  }

  lemma UpdateKeepsTicks(t: Table, tick: Tick, d: Diff)
    requires BatchesWellFormed(t.versions) && d.Update?
    ensures ApplyDiff(t, tick, d).table.versions.Keys == t.versions.Keys
  {
    hide UpdatePatch, Patched, WellFormed;
  }

  lemma ApplyOneFrame(tables: TableMap, tick: Tick, d: Diff)
    requires TablesWellFormed(tables)
    ensures Framed(tables, ApplyOne(tables, tick, d).tables, {d.name}, d.Update?)
  {
    if d.name in tables {
      DiffKeepsSpec(tables[d.name], tick, d);
      if d.Update? {
        UpdateKeepsTicks(tables[d.name], tick, d);
      }
    }
    hide ApplyDiff, BatchesWellFormed;
  }

  lemma {:induction false} ApplyEachFrame(tables: TableMap, tick: Tick, diffs: seq<Diff>)
    requires TablesWellFormed(tables)
    ensures Framed(tables, ApplyEach(tables, tick, diffs).tables, Touched(diffs), UpdatesOnly(diffs))
  {
    hide ApplyOne, TablesWellFormed;
    if diffs != [] {
      var before, last := diffs[..|diffs| - 1], diffs[|diffs| - 1];
      assert diffs == before + [last];
      ApplyEachFrame(tables, tick, before);
      ApplyOneFrame(ApplyEach(tables, tick, before).tables, tick, last);
      assert Touched(diffs) == Touched(before) + {last.name};
      assert UpdatesOnly(diffs) <==> UpdatesOnly(before) && last.Update?;
    }
  }

  /** Rolling back restores every table's versions, whatever the batch did and wherever it stopped. */
  lemma RollbackRestoresVersions(tables: TableMap, tick: Tick, diffs: seq<Diff>)
    requires TablesWellFormed(tables)
    ensures SameVersions(tables, RolledBack(tables, tick, diffs))
  {
    hide ApplyEach, BatchesWellFormed, TablesWellFormed;
    ApplyEachFrame(tables, tick, diffs);
  }

  /** A batch of updates is undone completely. */
  lemma UpdatesRollBackCompletely(tables: TableMap, tick: Tick, diffs: seq<Diff>)
    requires TablesWellFormed(tables) && UpdatesOnly(diffs)
    ensures RolledBack(tables, tick, diffs) == tables
  {
    ApplyEachFrame(tables, tick, diffs);
    hide ApplyEach, BatchesWellFormed;
    forall n | n in tables ensures RolledBack(tables, tick, diffs)[n] == tables[n] {
    }
  }

  // ---------------------------------------------------------------- where a batch leaves the rows

  /** What a rollback does not put back, and the number of batches that the open tick has. */
  datatype Landing = Landing(positions: map<RowId, Position>, count: nat, index: KeyIndex)

  function LandingOf(t: Table, tick: Tick): Landing {
    Landing(t.positions, |BatchesAt(t.versions, tick)|, t.index)
  }

  /** A diff's effect on the landing: an insert lands in a new batch, a delete removes, a replacement starts afresh. */
  function LandOne(spec: TableSpec, tick: Tick, l: Landing, d: Diff): Landing {
    match d
    case Update(_, _, _, _) => l
    case Insert(_, row, values) =>
      Landing(l.positions[row := (l.count, 0)], l.count + 1,
              if CarriesKey(spec, values) then
                Inserted(l.index, KeyOf(spec, values), Entry(tick, l.count, 0))
              else l.index)
    case Delete(_, row) => l.(positions := l.positions - {row})
    case ReplaceTable(_, rows) =>
      if rows == [] || !SchemaResolves(spec) then l
      else l.(positions := ReplaceRows(spec, rows, |rows|).positions, count := |rows|)
  }

  /** Where a batch leaves the rows of one table, read off the batch alone. */
  function Landed(spec: TableSpec, tick: Tick, start: Landing, diffs: seq<Diff>, name: string): Landing {
    if diffs == [] then start
    else
      var before := Landed(spec, tick, start, diffs[..|diffs| - 1], name);
      var d := diffs[|diffs| - 1];
      if d.name == name then LandOne(spec, tick, before, d) else before
  }

  /** How many diffs of a batch apply before the first that fails. */
  function Applied(tables: TableMap, tick: Tick, diffs: seq<Diff>): (k: nat)
    requires TablesWellFormed(tables)
    ensures k <= |diffs|
    ensures k == |diffs| <==> ApplyEach(tables, tick, diffs).error.None?
  {
    if diffs == [] || ApplyEach(tables, tick, diffs).error.None? then |diffs|
    else Applied(tables, tick, diffs[..|diffs| - 1])
  }

  /** The diffs that leave something in positions or indexes when k diffs apply: a replacement leaves what it had
      placed when it failed, any other failing diff leaves nothing. */
  function Traced(diffs: seq<Diff>, k: nat): seq<Diff>
    requires k <= |diffs|
  {
    if k < |diffs| && diffs[k].ReplaceTable? then diffs[..k + 1] else diffs[..k]
  }

  function LandedIn(tables: TableMap, tick: Tick, diffs: seq<Diff>, name: string): Landing
    requires name in tables
  {
    Landed(tables[name].spec, tick, LandingOf(tables[name], tick), diffs, name)
  }

  lemma DiffLands(t: Table, tick: Tick, d: Diff)
    requires BatchesWellFormed(t.versions)
    ensures var o := ApplyDiff(t, tick, d);
      var l := LandOne(t.spec, tick, LandingOf(t, tick), d);
      && (o.error.None? ==> LandingOf(o.table, tick) == l)
      && (o.error.Some? && !d.ReplaceTable? ==> o.table == t)
      && (d.ReplaceTable? ==> o.table.positions == l.positions && o.table.index == l.index)
  {
    hide LocateError, RowToBatch, UpdatePatch, NullPatch, Patched, WellFormed, SchemaResolves, Inserted, KeyText;
    if d.ReplaceTable? {
      hide ReplaceRows;
    }
  }

  lemma ApplyOneLands(tables: TableMap, tick: Tick, d: Diff, name: string)
    requires TablesWellFormed(tables) && name in tables
    ensures var o := ApplyOne(tables, tick, d);
      var before := LandingOf(tables[name], tick);
      var l := if d.name == name then LandOne(tables[name].spec, tick, before, d) else before;
      && o.tables[name].spec == tables[name].spec
      && (o.error.None? ==> LandingOf(o.tables[name], tick) == l)
      && (o.error.Some? && !d.ReplaceTable? ==> o.tables == tables)
      && (d.ReplaceTable? && d.name in tables ==>
        o.tables[name].positions == l.positions && o.tables[name].index == l.index)
      && (d.name !in tables ==> o.tables == tables && d.name != name)
  {
    if d.name in tables {
      DiffLands(tables[d.name], tick, d);
      DiffKeepsSpec(tables[d.name], tick, d);
    }
    hide ApplyDiff, BatchesWellFormed, LandOne, LandingOf;
  }

  /** A batch, however far it gets, leaves positions and index of every table as its traced diffs say. */
  lemma {:induction false} ApplyEachLands(tables: TableMap, tick: Tick, diffs: seq<Diff>, name: string)
    requires TablesWellFormed(tables) && name in tables
    ensures var o := ApplyEach(tables, tick, diffs);
      var l := LandedIn(tables, tick, Traced(diffs, Applied(tables, tick, diffs)), name);
      && o.tables[name].spec == tables[name].spec
      && o.tables[name].positions == l.positions && o.tables[name].index == l.index
      && (o.error.None? ==> LandingOf(o.tables[name], tick) == l)
  {
    hide ApplyOne, TablesWellFormed, LandOne, LandingOf;
    if diffs == [] {
      assert Traced(diffs, 0) == [];
      LandingParts(tables[name], tick);
      return;
    }
    var n := |diffs| - 1;
    var before, last := diffs[..n], diffs[n];
    ApplyEachLands(tables, tick, before, name);
    if ApplyEach(tables, tick, before).error.Some? {
      var k := Applied(tables, tick, before);
      assert Applied(tables, tick, diffs) == k;
      assert Traced(diffs, k) == Traced(before, k);
      return;
    }
    var mid := ApplyEach(tables, tick, before).tables;
    assert Traced(before, n) == before && diffs[..n + 1] == diffs;
    ApplyOneLands(mid, tick, last, name);
    LandingParts(mid[name], tick);
    LandingParts(ApplyOne(mid, tick, last).tables[name], tick);
    if ApplyOne(mid, tick, last).error.Some? {
      assert Applied(tables, tick, diffs) == n;
    }
  }

  lemma LandingParts(t: Table, tick: Tick)
    ensures LandingOf(t, tick).positions == t.positions && LandingOf(t, tick).index == t.index
  {
  }

  /** Exactly what a rollback leaves of each table, for every batch, however far it got. */
  lemma RollbackLeaves(tables: TableMap, tick: Tick, diffs: seq<Diff>, name: string)
    requires TablesWellFormed(tables) && name in tables
    ensures var l := LandedIn(tables, tick, Traced(diffs, Applied(tables, tick, diffs)), name);
      RolledBack(tables, tick, diffs)[name] == tables[name].(positions := l.positions, index := l.index)
  {
    ApplyEachLands(tables, tick, diffs, name);
    RollbackRestoresVersions(tables, tick, diffs);
    RollbackKeepsLandings(tables, tick, diffs, name);
    hide ApplyEach, RolledBack, Applied, LandedIn, Traced, TablesWellFormed;
  }

  lemma RollbackKeepsLandings(tables: TableMap, tick: Tick, diffs: seq<Diff>, name: string)
    requires TablesWellFormed(tables) && name in tables
    ensures var after := ApplyEach(tables, tick, diffs).tables[name];
      var back := RolledBack(tables, tick, diffs)[name];
      back.positions == after.positions && back.index == after.index
  {
    hide ApplyEach, BatchesWellFormed;
  }

  /** The traced diffs bring every row and every index entry back to where it was. */
  predicate Undone(tables: TableMap, tick: Tick, diffs: seq<Diff>) {
    forall n :: n in tables ==>
      LandedIn(tables, tick, diffs, n).positions == tables[n].positions &&
        LandedIn(tables, tick, diffs, n).index == tables[n].index
  }

  /** A rollback restores the tables exactly when the diffs that left a trace cancel out. */
  lemma RollbackRestoresIff(tables: TableMap, tick: Tick, diffs: seq<Diff>)
    requires TablesWellFormed(tables)
    ensures RolledBack(tables, tick, diffs) == tables <==>
      Undone(tables, tick, Traced(diffs, Applied(tables, tick, diffs)))
  {
    var traced := Traced(diffs, Applied(tables, tick, diffs));
    var back := RolledBack(tables, tick, diffs);
    RollbackRestoresVersions(tables, tick, diffs);
    hide RolledBack, Applied, LandedIn, Traced, TablesWellFormed;
    forall n | n in tables
      ensures back[n] == tables[n] <==>
        LandedIn(tables, tick, traced, n).positions == tables[n].positions &&
          LandedIn(tables, tick, traced, n).index == tables[n].index
    {
      RollbackLeaves(tables, tick, diffs, n);
    }
    if Undone(tables, tick, traced) {
      assert forall n :: n in tables ==> back[n] == tables[n];
    }
  }

  /** For a batch that applies the condition is about the batch alone. */
  lemma AppliedBatchRestoresIff(tables: TableMap, tick: Tick, diffs: seq<Diff>)
    requires TablesWellFormed(tables) && ApplyEach(tables, tick, diffs).error.None?
    ensures RolledBack(tables, tick, diffs) == tables <==> Undone(tables, tick, diffs)
    ensures forall n :: n in tables ==>
      (RolledBack(tables, tick, diffs)[n].positions == tables[n].positions <==>
       LandedIn(tables, tick, diffs, n).positions == tables[n].positions)
  {
    assert Traced(diffs, Applied(tables, tick, diffs)) == diffs;
    RollbackRestoresIff(tables, tick, diffs);
    forall n | n in tables
      ensures RolledBack(tables, tick, diffs)[n].positions == LandedIn(tables, tick, diffs, n).positions
    {
      RollbackLeaves(tables, tick, diffs, n);
    }
    hide ApplyEach, RolledBack, Applied, LandedIn, Traced, TablesWellFormed;
  }

  // ---------------------------------------------------------------- the key index half

  function Recorded(ix: KeyIndex, key: string): nat {
    if ix.history.Some? && key in ix.history.value then |ix.history.value[key]| else 0
  }

  lemma InsertedRecords(ix: KeyIndex, key: string, e: Entry)
    requires ix.history.Some?
    ensures Inserted(ix, key, e).history.Some?
    ensures forall k :: Recorded(Inserted(ix, key, e), k) == Recorded(ix, k) + (if k == key then 1 else 0)
  {
  }

  predicate IndexesInto(spec: TableSpec, diffs: seq<Diff>, name: string) {
    exists d :: d in diffs && d.Insert? && d.name == name && CarriesKey(spec, d.values)
  }

  lemma {:induction false} LandedRecords(spec: TableSpec, tick: Tick, start: Landing, diffs: seq<Diff>, name: string)
    requires start.index.history.Some?
    ensures var l := Landed(spec, tick, start, diffs, name);
      && l.index.history.Some?
      && (forall k :: Recorded(l.index, k) >= Recorded(start.index, k))
      && (IndexesInto(spec, diffs, name) ==> exists k :: Recorded(l.index, k) > Recorded(start.index, k))
      && (!IndexesInto(spec, diffs, name) ==> l.index == start.index)
  {
    if diffs != [] {
      var before, d := diffs[..|diffs| - 1], diffs[|diffs| - 1];
      assert diffs == before + [d];
      LandedRecords(spec, tick, start, before, name);
      var mid := Landed(spec, tick, start, before, name);
      if d.Insert? && d.name == name && CarriesKey(spec, d.values) {
        var key := KeyOf(spec, d.values);
        InsertedRecords(mid.index, key, Entry(tick, mid.count, 0));
        hide Inserted, KeyText;
        assert Recorded(LandOne(spec, tick, mid, d).index, key) > Recorded(start.index, key);
      } else {
        assert IndexesInto(spec, diffs, name) ==> IndexesInto(spec, before, name);
        assert IndexesInto(spec, before, name) ==> IndexesInto(spec, diffs, name);
      }
    }
  }

  /** A batch leaves the key index alone exactly when it inserts no row that carries the key column. */
  lemma IndexRestoredIff(tables: TableMap, tick: Tick, diffs: seq<Diff>, name: string)
    requires TablesWellFormed(tables) && name in tables && tables[name].index.history.Some?
    requires ApplyEach(tables, tick, diffs).error.None?
    ensures RolledBack(tables, tick, diffs)[name].index == tables[name].index <==>
      !IndexesInto(tables[name].spec, diffs, name)
  {
    RollbackLeaves(tables, tick, diffs, name);
    assert Traced(diffs, Applied(tables, tick, diffs)) == diffs;
    LandedRecords(tables[name].spec, tick, LandingOf(tables[name], tick), diffs, name);
    hide ApplyEach, RolledBack, Applied, Landed, Traced, TablesWellFormed, IndexesInto;
  }

  // ---------------------------------------------------------------- which rows are live

  /** What a diff makes of a row: live, dead, or as it was. */
  function Effect(spec: TableSpec, d: Diff, name: string, row: RowId): Option<bool> {
    if d.name != name then None
    else
      match d
      case Update(_, _, _, _) => None
      case Insert(_, r, _) => if r == row then Some(true) else None
      case Delete(_, r) => if r == row then Some(false) else None
      case ReplaceTable(_, rows) =>
        if rows == [] || !SchemaResolves(spec) then None else Some(row in ReplaceRows(spec, rows, |rows|).positions)
  }

  function LastEffect(spec: TableSpec, diffs: seq<Diff>, name: string, row: RowId): Option<bool> {
    if diffs == [] then None
    else
      match Effect(spec, diffs[|diffs| - 1], name, row)
      case Some(b) => Some(b)
      case None => LastEffect(spec, diffs[..|diffs| - 1], name, row)
  }

  lemma {:induction false} LandedLive(spec: TableSpec, tick: Tick, start: Landing, diffs: seq<Diff>, name: string,
                                      row: RowId)
    ensures row in Landed(spec, tick, start, diffs, name).positions <==>
      match LastEffect(spec, diffs, name, row)
      case Some(b) => b
      case None => row in start.positions
  {
    if diffs != [] {
      LandedLive(spec, tick, start, diffs[..|diffs| - 1], name, row);
      hide ReplaceRows, Inserted, KeyText, SchemaResolves;
    }
  }

  /** After a rollback the live rows are the old ones exactly when the last effect on every row was what it was
      before. */
  lemma LiveRowsRestoredIff(tables: TableMap, tick: Tick, diffs: seq<Diff>)
    requires TablesWellFormed(tables)
    ensures var traced := Traced(diffs, Applied(tables, tick, diffs));
      (forall n :: n in tables ==> RolledBack(tables, tick, diffs)[n].positions.Keys == tables[n].positions.Keys) <==>
      (forall n, r :: n in tables && LastEffect(tables[n].spec, traced, n, r).Some? ==>
         LastEffect(tables[n].spec, traced, n, r).value == (r in tables[n].positions))
  {
    var traced := Traced(diffs, Applied(tables, tick, diffs));
    var after := RolledBack(tables, tick, diffs);
    forall n, r: RowId | n in tables
      ensures (r in after[n].positions <==> r in tables[n].positions) <==>
        (LastEffect(tables[n].spec, traced, n, r).Some? ==>
           LastEffect(tables[n].spec, traced, n, r).value == (r in tables[n].positions))
    {
      RollbackLeaves(tables, tick, diffs, n);
      LandedLive(tables[n].spec, tick, LandingOf(tables[n], tick), traced, n, r);
      hide ApplyEach, RolledBack, Applied, Landed, Traced, LastEffect, TablesWellFormed;
    }
    hide RolledBack, Applied, Traced, LastEffect, TablesWellFormed;
    if forall n, r :: n in tables && LastEffect(tables[n].spec, traced, n, r).Some? ==>
         LastEffect(tables[n].spec, traced, n, r).value == (r in tables[n].positions) {
      forall n | n in tables ensures after[n].positions.Keys == tables[n].positions.Keys {
        assert forall r: RowId :: r in after[n].positions <==> r in tables[n].positions;
      }
    }
  }

  // ---------------------------------------------------------------- retrying a batch

  /** What the first diff about a row asks of it. */
  datatype Need = Live | Dead | Anything

  function Use(d: Diff, name: string, row: RowId): Option<Need> {
    if d.name != name then None
    else
      match d
      case Update(_, r, _, _) => if r == row then Some(Live) else None
      case Delete(_, r) => if r == row then Some(Live) else None
      case Insert(_, r, _) => if r == row then Some(Dead) else None
      case ReplaceTable(_, _) => Some(Anything)
  }

  function FirstUse(diffs: seq<Diff>, name: string, row: RowId): Option<Need> {
    if diffs == [] then None
    else
      match FirstUse(diffs[..|diffs| - 1], name, row)
      case Some(need) => Some(need)
      case None => Use(diffs[|diffs| - 1], name, row)
  }

  lemma {:induction false} FirstUseStays(diffs: seq<Diff>, k: nat, name: string, row: RowId)
    requires k <= |diffs|
    ensures FirstUse(diffs[..k], name, row).Some? ==> FirstUse(diffs, name, row) == FirstUse(diffs[..k], name, row)
    decreases |diffs|
  {
    if k == |diffs| {
      assert diffs[..k] == diffs;
    } else {
      assert diffs[..|diffs| - 1][..k] == diffs[..k];
      FirstUseStays(diffs[..|diffs| - 1], k, name, row);
    }
  }

  /** A row without a use has no effect on it either. */
  lemma {:induction false} UnusedIsUntouched(spec: TableSpec, diffs: seq<Diff>, name: string, row: RowId)
    requires FirstUse(diffs, name, row).None?
    ensures LastEffect(spec, diffs, name, row).None?
  {
    if diffs != [] {
      UnusedIsUntouched(spec, diffs[..|diffs| - 1], name, row);
    }
  }

  predicate Meets(need: Option<Need>, live: bool) {
    (need == Some(Live) ==> live) && (need == Some(Dead) ==> !live)
  }

  lemma DiffNeedsRow(t: Table, tick: Tick, d: Diff, row: RowId)
    requires BatchesWellFormed(t.versions) && ApplyDiff(t, tick, d).error.None?
    ensures Meets(Use(d, d.name, row), row in t.positions)
  {
    hide RowToBatch, UpdatePatch, NullPatch, PatchVersions, WellFormed, Located, ReplaceRows;
  }

  lemma ApplyOneNeedsRow(tables: TableMap, tick: Tick, d: Diff, name: string, row: RowId)
    requires TablesWellFormed(tables) && name in tables && ApplyOne(tables, tick, d).error.None?
    ensures Meets(Use(d, name, row), row in tables[name].positions)
  {
    if d.name == name {
      DiffNeedsRow(tables[name], tick, d, row);
    }
    hide ApplyDiff, BatchesWellFormed;
  }

  /** When a batch applies, every row met its first use, and is live afterwards as its last effect says. */
  lemma {:induction false} RowAfterBatch(tables: TableMap, tick: Tick, diffs: seq<Diff>, name: string, row: RowId)
    requires TablesWellFormed(tables) && name in tables
    requires ApplyEach(tables, tick, diffs).error.None?
    ensures Meets(FirstUse(diffs, name, row), row in tables[name].positions)
    ensures row in ApplyEach(tables, tick, diffs).tables[name].positions <==>
      match LastEffect(tables[name].spec, diffs, name, row)
      case Some(b) => b
      case None => row in tables[name].positions
  {
    BatchMoves(tables, tick, diffs, name, row);
    if diffs != [] {
      var before, last := diffs[..|diffs| - 1], diffs[|diffs| - 1];
      RowAfterBatch(tables, tick, before, name, row);
      ApplyOneNeedsRow(ApplyEach(tables, tick, before).tables, tick, last, name, row);
      if FirstUse(before, name, row).None? {
        UnusedIsUntouched(tables[name].spec, before, name, row);
      }
    }
    hide ApplyOne, TablesWellFormed, LastEffect, Use;
  }

  lemma BatchMoves(tables: TableMap, tick: Tick, diffs: seq<Diff>, name: string, row: RowId)
    requires TablesWellFormed(tables) && name in tables && ApplyEach(tables, tick, diffs).error.None?
    ensures row in ApplyEach(tables, tick, diffs).tables[name].positions <==>
      match LastEffect(tables[name].spec, diffs, name, row)
      case Some(b) => b
      case None => row in tables[name].positions
  {
    ApplyEachLands(tables, tick, diffs, name);
    assert Traced(diffs, Applied(tables, tick, diffs)) == diffs;
    LandedLive(tables[name].spec, tick, LandingOf(tables[name], tick), diffs, name, row);
    hide ApplyEach, Applied, Landed, Traced, LastEffect, TablesWellFormed;
  }

  /** The batch leaves the row the opposite of what its first use asks. */
  predicate Unbalanced(spec: TableSpec, diffs: seq<Diff>, name: string, row: RowId) {
    var need, last := FirstUse(diffs, name, row), LastEffect(spec, diffs, name, row);
    (need == Some(Live) && last == Some(false)) || (need == Some(Dead) && last == Some(true))
  }

  /** The first use of the row cannot be met. */
  predicate Unmet(tables: TableMap, diffs: seq<Diff>, name: string, row: RowId) {
    name in tables && !Meets(FirstUse(diffs, name, row), row in tables[name].positions)
  }

  /** A batch that cannot meet a row's first use fails, and its rollback leaves that so. */
  lemma UnmetStaysUnmet(tables: TableMap, tick: Tick, diffs: seq<Diff>, name: string, row: RowId)
    requires TablesWellFormed(tables) && Unmet(tables, diffs, name, row)
    ensures ApplyEach(tables, tick, diffs).error.Some?
    ensures Unmet(RolledBack(tables, tick, diffs), diffs, name, row)
  {
    if ApplyEach(tables, tick, diffs).error.None? {
      RowAfterBatch(tables, tick, diffs, name, row);
    }
    var traced := Traced(diffs, Applied(tables, tick, diffs));
    UnmetIsUntraced(tables, tick, diffs, name, row);
    UnusedIsUntouched(tables[name].spec, traced, name, row);
    RollbackLeaves(tables, tick, diffs, name);
    LandedLive(tables[name].spec, tick, LandingOf(tables[name], tick), traced, name, row);
    hide ApplyEach, RolledBack, Applied, Landed, Traced, LastEffect, FirstUse, TablesWellFormed;
  }

  /** The diffs that leave a trace stop short of the use that cannot be met. */
  lemma UnmetIsUntraced(tables: TableMap, tick: Tick, diffs: seq<Diff>, name: string, row: RowId)
    requires TablesWellFormed(tables) && Unmet(tables, diffs, name, row)
    ensures FirstUse(Traced(diffs, Applied(tables, tick, diffs)), name, row).None?
  {
    hide *;
    var k := Applied(tables, tick, diffs);
    AppliedPrefix(tables, tick, diffs);
    UnmetMeans(tables, diffs, name, row);
    RowAfterBatch(tables, tick, diffs[..k], name, row);
    FirstUseStays(diffs, k, name, row);
    TracedIsUnused(diffs, k, name, row);
  }

  lemma UnmetMeans(tables: TableMap, diffs: seq<Diff>, name: string, row: RowId)
    requires Unmet(tables, diffs, name, row)
    ensures name in tables && FirstUse(diffs, name, row).Some? && FirstUse(diffs, name, row) != Some(Anything)
    ensures !Meets(FirstUse(diffs, name, row), row in tables[name].positions)
  {
  }

  /** If a batch's first use of a row is no replacement, what the batch left before that use does not use the row. */
  lemma TracedIsUnused(diffs: seq<Diff>, k: nat, name: string, row: RowId)
    requires k <= |diffs| && FirstUse(diffs[..k], name, row).None? && FirstUse(diffs, name, row) != Some(Anything)
    ensures FirstUse(Traced(diffs, k), name, row).None?
  {
    if k < |diffs| && diffs[k].ReplaceTable? {
      FirstUseStays(diffs, k + 1, name, row);
      assert diffs[..k + 1][..k] == diffs[..k];
      assert FirstUse(diffs[..k + 1], name, row) == Use(diffs[k], name, row);
    }
  }

  lemma {:induction false} AppliedPrefix(tables: TableMap, tick: Tick, diffs: seq<Diff>)
    requires TablesWellFormed(tables)
    ensures ApplyEach(tables, tick, diffs[..Applied(tables, tick, diffs)]).error.None?
  {
    if ApplyEach(tables, tick, diffs).error.None? {
      assert diffs[..|diffs|] == diffs;
    } else {
      var before := diffs[..|diffs| - 1];
      AppliedPrefix(tables, tick, before);
      assert before[..Applied(tables, tick, before)] == diffs[..Applied(tables, tick, before)];
    }
    hide ApplyOne, TablesWellFormed;
  }

  /** Rolling back an applied batch with an unbalanced row leaves that row's first use unmet. */
  lemma UnbalancedIsUnmet(tables: TableMap, tick: Tick, diffs: seq<Diff>, name: string, row: RowId)
    requires TablesWellFormed(tables) && ApplyEach(tables, tick, diffs).error.None?
    requires name in tables && Unbalanced(tables[name].spec, diffs, name, row)
    ensures Unmet(RolledBack(tables, tick, diffs), diffs, name, row)
  {
    RowAfterBatch(tables, tick, diffs, name, row);
    RollbackKeepsLandings(tables, tick, diffs, name);
    hide ApplyEach, RolledBack, TablesWellFormed, LastEffect, FirstUse;
  }

  /** So retrying it fails, at whatever tick. */
  lemma UnbalancedRetryFails(tables: TableMap, tick: Tick, diffs: seq<Diff>, name: string, row: RowId, retryTick: Tick)
    requires TablesWellFormed(tables) && ApplyEach(tables, tick, diffs).error.None?
    requires name in tables && Unbalanced(tables[name].spec, diffs, name, row)
    ensures ApplyEach(RolledBack(tables, tick, diffs), retryTick, diffs).error.Some?
  {
    UnbalancedIsUnmet(tables, tick, diffs, name, row);
    UnmetStaysUnmet(RolledBack(tables, tick, diffs), retryTick, diffs, name, row);
    hide ApplyEach, RolledBack, TablesWellFormed;
  }

  // ---------------------------------------------------------------- witnesses

  /** The smallest case: one insert, rolled back, can never be retried. */
  lemma InsertRetryWitness()
    ensures var diffs := [Diff.Insert("t", 7, OneCell(10))];
      var tables := map["t" := EMPTY_TABLE];
      TablesWellFormed(tables) && ApplyEach(tables, 0, diffs).error.None? &&
      ApplyEach(RolledBack(tables, 0, diffs), 0, diffs).error == Some(DuplicateRowId(7))
  {
    var d := Diff.Insert("t", 7, OneCell(10));
    var tables: TableMap := map["t" := EMPTY_TABLE];
    OneCellBatch(10);
    assert [d][..0] == [];
    assert d.name in Touched([d]) by { assert d in [d]; }
    assert ApplyOne(tables, 0, d).error.None?;
    hide RowToBatch;
    assert ApplyEach(tables, 0, [d]) == ApplyOne(tables, 0, d);
    assert 7 in RolledBack(tables, 0, [d])["t"].positions;
  }

  /** Two rows of one tick, in two batches. */
  function TwoRows(): Table {
    InsertRow(InsertRow(EMPTY_TABLE, 0, 6, OneCell(10)).table, 0, 7, OneCell(20)).table
  }

  lemma TwoRowsPlaced()
    ensures var t := TwoRows();
      && BatchesWellFormed(t.versions) && t.versions.Keys == {0} && |t.versions[0]| == 2
      && t.positions == map[6 := (0, 0), 7 := (1, 0)]
      && Located(t.versions, (1, 0)) && SchemaResolves(t.spec) && t.spec == EMPTY_TABLE.spec
  {
    OneCellBatch(10);
    OneCellBatch(20);
    hide RowToBatch;
    var t := TwoRows();
    assert TicksWith(t.versions, 1) == {0};
  }

  /** Every row can be balanced and the rows still come back in the wrong place: a row deleted and inserted again lands
      in the open tick, and after the rollback it reads as another row. */
  lemma MovedRowWitness()
    ensures var tables := map["t" := TwoRows()];
      var diffs := [Diff.Delete("t", 7), Diff.Insert("t", 7, OneCell(30))];
      && TablesWellFormed(tables) && ApplyEach(tables, 1, diffs).error.None?
      && (forall row :: !Unbalanced(TwoRows().spec, diffs, "t", row))
      && RolledBack(tables, 1, diffs)["t"].positions == map[6 := (0, 0), 7 := (0, 0)]
  {
    hide *;
    TwoRowsPlaced();
    var t := TwoRows();
    var tables: TableMap := map["t" := t];
    var delete, insert := Diff.Delete("t", 7), Diff.Insert("t", 7, OneCell(30));
    ReinsertApplies(tables, t, delete, insert);
    ReinsertLeaves(tables, t, delete, insert);
    forall row ensures !Unbalanced(t.spec, [delete, insert], "t", row) {
      ReinsertIsBalanced(t.spec, delete, insert, row);
    }
  }

  lemma ReinsertLeaves(tables: TableMap, t: Table, delete: Diff, insert: Diff)
    requires tables == map["t" := t] && TablesWellFormed(tables) && t.versions.Keys == {0}
    requires t.positions == map[6 := (0, 0), 7 := (1, 0)]
    requires delete == Diff.Delete("t", 7) && insert == Diff.Insert("t", 7, OneCell(30))
    requires ApplyEach(tables, 1, [delete, insert]).error.None?
    ensures RolledBack(tables, 1, [delete, insert])["t"].positions == map[6 := (0, 0), 7 := (0, 0)]
  {
    hide *;
    var diffs := [delete, insert];
    RollbackLeaves(tables, 1, diffs, "t");
    TracedWhole(diffs);
    EmptyTickLanding(tables, t, diffs);
    ReinsertLands(t.spec, Landing(t.positions, 0, t.index), delete, insert);
  }

  lemma TracedWhole(diffs: seq<Diff>)
    ensures Traced(diffs, |diffs|) == diffs
  {
  }

  lemma EmptyTickLanding(tables: TableMap, t: Table, diffs: seq<Diff>)
    requires tables == map["t" := t] && 1 !in t.versions
    ensures LandedIn(tables, 1, diffs, "t") == Landed(t.spec, 1, Landing(t.positions, 0, t.index), diffs, "t")
  {
    hide Landed;
  }

  lemma ReinsertLands(spec: TableSpec, start: Landing, delete: Diff, insert: Diff)
    requires delete.Delete? && insert.Insert? && delete.name == insert.name && delete.row == insert.row
    ensures Landed(spec, 1, start, [delete, insert], delete.name).positions ==
      start.positions[delete.row := (start.count, 0)]
  {
    assert [delete, insert][..1] == [delete] && [delete][..0] == [];
    assert Landed(spec, 1, start, [delete], delete.name) == LandOne(spec, 1, start, delete);
    hide Inserted, KeyText;
  }

  lemma ReinsertIsBalanced(spec: TableSpec, delete: Diff, insert: Diff, row: RowId)
    requires delete.Delete? && insert.Insert? && delete.name == insert.name && delete.row == insert.row
    ensures !Unbalanced(spec, [delete, insert], delete.name, row)
  {
    assert [delete, insert][..1] == [delete] && [delete][..0] == [];
    assert FirstUse([delete], delete.name, row) == Use(delete, delete.name, row);
  }

  lemma ReinsertApplies(tables: TableMap, t: Table, delete: Diff, insert: Diff)
    requires tables == map["t" := t] && BatchesWellFormed(t.versions) && t.spec == EMPTY_TABLE.spec &&
      SchemaResolves(t.spec)
    requires delete == Diff.Delete("t", 7) && insert == Diff.Insert("t", 7, OneCell(30))
    requires 7 in t.positions && Located(t.versions, t.positions[7])
    ensures TablesWellFormed(tables) && ApplyEach(tables, 1, [delete, insert]).error.None?
  {
    hide RowToBatch, NullPatch, InsertRow, OneCell, WellFormed;
    OneCellBatch(30);
    DeleteFits(t, 7);
    DiffKeepsSpec(t, 1, delete);
    hide DeleteRow;
    TwoApply(tables, 1, delete, insert);
    FreshInsert(ApplyOne(tables, 1, delete).tables["t"], 1, 7, 30);
  }

  lemma DeleteFits(t: Table, row: RowId)
    requires BatchesWellFormed(t.versions) && row in t.positions && Located(t.versions, t.positions[row])
    ensures DeleteRow(t, row).error.None? && row !in DeleteRow(t, row).table.positions
  {
  }

  lemma TwoApply(tables: TableMap, tick: Tick, first: Diff, second: Diff)
    requires TablesWellFormed(tables) && ApplyOne(tables, tick, first).error.None?
    ensures ApplyEach(tables, tick, [first, second]) == ApplyOne(ApplyOne(tables, tick, first).tables, tick, second)
  {
    assert [first, second][..1] == [first] && [first][..0] == [];
    assert ApplyEach(tables, tick, [first]) == ApplyOne(tables, tick, first);
    hide ApplyOne, TablesWellFormed;
  }

  lemma FreshInsert(t: Table, tick: Tick, row: RowId, n: int)
    requires t.spec == EMPTY_TABLE.spec && SchemaResolves(t.spec) && row !in t.positions &&
      RowToBatch(OneCell(n), t.spec.fields).Some?
    ensures InsertRow(t, tick, row, OneCell(n)).error.None?
  {
  }
}
