/** The store: named tables, snapshots by tick, a generation counter, and the all-or-nothing diff batch. */
module Stores {
  import opened Machine
  import opened Batches
  import opened KeyIndexes
  import opened Tables
  import opened TableRefinement
  import opened VersionedTables

  type TableMap = map<string, Table>

  type SavedVersions = map<string, Versions>

  datatype Snapshot = Snapshot(tick: Tick, tables: TableMap)

  datatype StoreState = StoreState(tables: TableMap, snapshots: map<Tick, Snapshot>, generation: u64, simulation: bool)

  predicate TablesWellFormed(tables: TableMap) {
    forall n :: n in tables ==> BatchesWellFormed(tables[n].versions)
  }

  // ---------------------------------------------------------------- a batch of diffs

  datatype BatchOutcome = BatchOutcome(tables: TableMap, error: Option<StoreError>)

  function ApplyOne(tables: TableMap, tick: Tick, d: Diff): (o: BatchOutcome)
    requires TablesWellFormed(tables)
    ensures TablesWellFormed(o.tables) && o.tables.Keys == tables.Keys
  {
    if d.name !in tables then BatchOutcome(tables, Some(TableNotFound(d.name)))
    else
      DiffKeepsWellFormed(tables[d.name], tick, d);
      var o := ApplyDiff(tables[d.name], tick, d);
      BatchOutcome(tables[d.name := o.table], o.error)
  }

  /** The diffs in order up to the first failing one, whose traces stay. */
  function ApplyEach(tables: TableMap, tick: Tick, diffs: seq<Diff>): (o: BatchOutcome)
    requires TablesWellFormed(tables)
    ensures TablesWellFormed(o.tables) && o.tables.Keys == tables.Keys
  {
    if diffs == [] then BatchOutcome(tables, None)
    else
      var before := ApplyEach(tables, tick, diffs[..|diffs| - 1]);
      if before.error.Some? then before else ApplyOne(before.tables, tick, diffs[|diffs| - 1])
  }

  function Touched(diffs: seq<Diff>): set<string> {
    set d | d in diffs :: d.name
  }

  /** The saved copies of the versions, for those named tables that exist. */
  function Saved(tables: TableMap, names: set<string>): SavedVersions {
    map n | n in names && n in tables :: tables[n].versions
  }

  /** Only the versions go back: positions and key index stay as they are. */
  function Restored(tables: TableMap, saved: SavedVersions): TableMap {
    map n | n in tables :: if n in saved then tables[n].(versions := saved[n]) else tables[n]
  }

  function ApplyDiffsTo(s: StoreState, tick: Tick, diffs: seq<Diff>): (r: (StoreState, Option<StoreError>))
    requires TablesWellFormed(s.tables)
    ensures TablesWellFormed(r.0.tables)
  {
    if !s.simulation then (s, Some(LifecycleError))
    else
      var o := ApplyEach(s.tables, tick, diffs);
      if o.error.None? then (s.(tables := o.tables), None)
      else (s.(tables := Restored(o.tables, Saved(s.tables, Touched(diffs)))), o.error)
  }

  function WithSnapshot(s: StoreState, tick: Tick): StoreState {
    s.(generation := (s.generation + 1) % (U64_MAX + 1), snapshots := s.snapshots[tick := Snapshot(tick, s.tables)])
  }

  // ---------------------------------------------------------------- the store object

  class ArrowStore {
    var tables: map<string, VersionedTable>
    var snapshots: map<Tick, Snapshot>
    var generation: u64
    var simulation: bool

    function Values(): TableMap
      reads this, tables.Values
    {
      map n | n in tables :: tables[n].Value()
    }

    function State(): StoreState
      reads this, tables.Values
    {
      StoreState(Values(), snapshots, generation, simulation)
    }

    /** Different names are different tables, and every batch is well formed. */
    ghost predicate Valid()
      reads this, tables.Values
    {
      (forall n, m :: n in tables && m in tables && n != m ==> tables[n] != tables[m]) &&
      TablesWellFormed(Values())
    }

    constructor ()
      ensures Valid() && State() == StoreState(map[], map[], 0, false) && tables == map[]
    {
      tables, snapshots, generation, simulation := map[], map[], 0, false;
    }

    method CreateTable(name: string, spec: TableSpec) returns (ok: bool)
      requires Valid()
      modifies this`tables
      ensures Valid() && fresh(tables.Values - old(tables.Values))
      ensures ok <==> !simulation && name !in old(tables)
      ensures State() ==
        if ok then old(State()).(tables := old(Values())[name := Table(spec, map[], map[], EMPTY_INDEX)])
        else old(State())
    {
      if simulation || name in tables {
        return false;
      }
      ghost var before := Values();
      var table := new VersionedTable(spec);
      assert BatchesWellFormed(map[]);
      hide BatchesWellFormed;
      tables := tables[name := table];
      assert Values() == before[name := Table(spec, map[], map[], EMPTY_INDEX)];
      ok := true;
    }

    method AdvanceToSimulation() returns (ok: bool)
      requires Valid()
      modifies this`simulation
      ensures Valid() && State() == old(State()).(simulation := true)
      ensures ok <==> !old(simulation)
    {
      ok := !simulation;
      simulation := true;
    }

    /** Change one table object; the others keep their values. */
    method ApplyDispatched(tick: Tick, d: Diff) returns (error: Option<StoreError>)
      requires Valid()
      modifies tables.Values
      ensures Valid() && BatchOutcome(Values(), error) == ApplyOne(old(Values()), tick, d)
    {
      if d.name !in tables {
        return Some(TableNotFound(d.name));
      }
      assert Values()[d.name] == tables[d.name].Value();
      error := tables[d.name].Apply(tick, d);
      assert Values() == old(Values())[d.name := ApplyDiff(old(Values())[d.name], tick, d).table];
    }

    method SaveTableVersions(names: seq<string>) returns (saved: SavedVersions)
      requires Valid()
      ensures saved == Saved(Values(), set n | n in names)
    {
      saved := map[];
      for i := 0 to |names|
        invariant saved == Saved(Values(), set n | n in names[..i])
      {
        assert names[..i + 1] == names[..i] + [names[i]];
        if names[i] in tables {
          saved := saved[names[i] := tables[names[i]].versions];
        }
      }
      assert names[..|names|] == names;
    }

    method RestoreTableVersions(saved: SavedVersions)
      requires Valid() && forall n :: n in saved ==> BatchesWellFormed(saved[n])
      modifies tables.Values
      ensures Valid() && Values() == Restored(old(Values()), saved)
    {
      ghost var before := Values();
      var remaining := saved.Keys;
      assert Restored(before, PutBack(saved, remaining)) == before;
      hide BatchesWellFormed, Restored, PutBack;
      while remaining != {}
        invariant remaining <= saved.Keys
        invariant Values() == Restored(before, PutBack(saved, remaining))
      {
        var name :| name in remaining;
        RestoreStep(before, saved, remaining, name);
        remaining := remaining - {name};
        if name in tables {
          RestoreOne(name, saved[name]);
        }
      }
      RestoredAll(before, saved);
    }

    method RestoreOne(name: string, versions: Versions)
      requires forall n, m :: n in tables && m in tables && n != m ==> tables[n] != tables[m]
      requires name in tables
      modifies tables[name]
      ensures Values() == old(Values())[name := old(Values())[name].(versions := versions)]
    {
      tables[name].versions := versions;
    }

    /** Apply all diffs, or on the first error put the saved versions back. */
    method ApplyDiffs(tick: Tick, diffs: seq<Diff>) returns (error: Option<StoreError>)
      requires Valid()
      modifies tables.Values
      ensures Valid() && (State(), error) == ApplyDiffsTo(old(State()), tick, diffs)
    {
      if !simulation {
        return Some(LifecycleError);
      }
      var names := seq(|diffs|, (i: nat) requires i < |diffs| => diffs[i].name);
      var saved := SaveTableVersions(names);
      NamesAreTouched(diffs, names);
      SavedWellFormed(Values(), Touched(diffs));
      error := ApplyUntilError(tick, diffs);
      if error.Some? {
        hide ApplyEach, Touched, BatchesWellFormed;
        RestoreTableVersions(saved);
      }
    }

    /** The diffs in order up to the first error. */
    method ApplyUntilError(tick: Tick, diffs: seq<Diff>) returns (error: Option<StoreError>)
      requires Valid()
      modifies tables.Values
      ensures Valid() && BatchOutcome(Values(), error) == ApplyEach(old(Values()), tick, diffs)
    {
      ghost var before := Values();
      hide ApplyOne, BatchesWellFormed;
      for i := 0 to |diffs|
        invariant Valid()
        invariant BatchOutcome(Values(), None) == ApplyEach(before, tick, diffs[..i])
      {
        assert diffs[..i + 1][..i] == diffs[..i];
        error := ApplyDispatched(tick, diffs[i]);
        if error.Some? {
          ErrorStays(before, tick, diffs, i + 1);
          return;
        }
      }
      assert diffs[..|diffs|] == diffs;
      return None;
    }

    method GenerateSnapshot(tick: Tick) returns (error: Option<StoreError>)
      requires Valid()
      modifies this`snapshots, this`generation
      ensures Valid() && tables == old(tables)
      ensures error.Some? <==> !simulation
      ensures State() == if error.Some? then old(State()) else WithSnapshot(old(State()), tick)
    {
      if !simulation {
        return Some(LifecycleError);
      }
      var values := Values();
      generation := (generation + 1) % (U64_MAX + 1);
      snapshots := snapshots[tick := Snapshot(tick, values)];
      assert Values() == values;
      return None;
    }
  }

  /** The saved entries that have been put back. */
  function PutBack(saved: SavedVersions, remaining: set<string>): SavedVersions {
    map n | n in saved && n !in remaining :: saved[n]
  }

  lemma RestoreStep(tables: TableMap, saved: SavedVersions, remaining: set<string>, name: string)
    requires name in saved && name in remaining
    ensures var before := Restored(tables, PutBack(saved, remaining));
      Restored(tables, PutBack(saved, remaining - {name})) ==
      if name in tables then before[name := before[name].(versions := saved[name])] else before
    ensures Restored(tables, PutBack(saved, remaining)).Keys == tables.Keys
  {
  }

  lemma RestoredAll(tables: TableMap, saved: SavedVersions)
    requires TablesWellFormed(tables) && forall n :: n in saved ==> BatchesWellFormed(saved[n])
    ensures Restored(tables, PutBack(saved, {})) == Restored(tables, saved)
    ensures TablesWellFormed(Restored(tables, saved))
  {
    assert PutBack(saved, {}) == saved;
    hide BatchesWellFormed;
  }

  lemma SavedWellFormed(tables: TableMap, names: set<string>)
    requires TablesWellFormed(tables)
    ensures forall n :: n in Saved(tables, names) ==> BatchesWellFormed(Saved(tables, names)[n])
  {
  }

  lemma NamesAreTouched(diffs: seq<Diff>, names: seq<string>)
    requires |names| == |diffs| && forall i :: 0 <= i < |diffs| ==> names[i] == diffs[i].name
    ensures (set n | n in names) == Touched(diffs)
  {
    forall n | n in names ensures n in Touched(diffs) {
      var i :| 0 <= i < |names| && names[i] == n;
      assert diffs[i] in diffs;
    }
    forall n | n in Touched(diffs) ensures n in names {
      var d :| d in diffs && d.name == n;
      var i :| 0 <= i < |diffs| && diffs[i] == d;
      assert names[i] == n;
    }
  }

  /** After a failing diff the rest of the batch is not applied. */
  lemma {:induction false} ErrorStays(tables: TableMap, tick: Tick, diffs: seq<Diff>, m: nat)
    requires TablesWellFormed(tables) && m <= |diffs| && ApplyEach(tables, tick, diffs[..m]).error.Some?
    ensures ApplyEach(tables, tick, diffs) == ApplyEach(tables, tick, diffs[..m])
    decreases |diffs|
  {
    if m < |diffs| {
      var before := diffs[..|diffs| - 1];
      assert before[..m] == diffs[..m];
      ErrorStays(tables, tick, before, m);
    } else {
      assert diffs[..m] == diffs;
    }
  }
}
