/** What commits guarantee, one at a time and over whole runs. */
module JournalRuns {
  import opened Machine
  import opened Batches
  import opened KeyIndexes
  import opened Tables
  import opened TableRefinement
  import opened Stores
  import opened StoreRollback
  import opened ReadViews
  import opened QueryEngines
  import opened Journals

  // ---------------------------------------------------------------- one commit

  /** A failed commit leaves the journal and the engine exactly as they were, open for a retry, and every table's
      versions too. What it can leave behind: positions and key indexes, the snapshot at the open tick, and the
      generation. With updates only, the tables are exactly as they were. */
  lemma FailedCommitIsAtomic(w: World, digest: Digest, appendOk: bool)
    requires TablesWellFormed(w.store.tables) && Commit(w, digest, appendOk).1.Err?
    ensures var after := Commit(w, digest, appendOk).0;
      after.journal == w.journal && after.engine == w.engine && after.saving == w.saving &&
      SameVersions(w.store.tables, after.store.tables) &&
      (UpdatesOnly(w.journal.diffs) ==> after.store.tables == w.store.tables) &&
      after.store.simulation == w.store.simulation &&
      after.store.snapshots - {w.journal.tick} == w.store.snapshots - {w.journal.tick} &&
      (after.store.generation == w.store.generation ||
        after.store.generation == (w.store.generation + 1) % (U64_MAX + 1))
  {
    RollbackRestoresVersions(w.store.tables, w.journal.tick, w.journal.diffs);
    if UpdatesOnly(w.journal.diffs) {
      UpdatesRollBackCompletely(w.store.tables, w.journal.tick, w.journal.diffs);
    }
    FailedCommitTables(w, digest, appendOk);
    SnapshotLeftFrame(w);
    hide Commit, RolledBack, UpdatesOnly, TablesWellFormed, SnapshotLeft, SameVersions;
    SameAsItself(w.store.tables);
  }

  lemma SameAsItself(tables: TableMap)
    ensures SameVersions(tables, tables)
  {
  }

  lemma SnapshotLeftFrame(w: World)
    requires TablesWellFormed(w.store.tables)
    ensures var left := SnapshotLeft(w);
      left.simulation == w.store.simulation &&
      left.snapshots - {w.journal.tick} == w.store.snapshots - {w.journal.tick} &&
      (left.generation == w.store.generation || left.generation == (w.store.generation + 1) % (U64_MAX + 1))
  {
    hide ApplyEach, BatchesWellFormed;
  }

  /** A failed commit's world: only the store differs. Its tables are the rolled-back ones, and a snapshot of the
      applied batch stays behind if the batch got that far. */
  lemma FailedCommitTables(w: World, digest: Digest, appendOk: bool)
    requires TablesWellFormed(w.store.tables) && Commit(w, digest, appendOk).1.Err?
    ensures Commit(w, digest, appendOk).0 == w.(store := Commit(w, digest, appendOk).0.store)
    ensures var j := w.journal;
      Commit(w, digest, appendOk).0.store ==
        if j.phase != Open || !w.store.simulation then w.store
        else SnapshotLeft(w).(tables := RolledBack(w.store.tables, j.tick, j.diffs))
  {
    var failure := CommitFailure(w, digest, appendOk);
    assert Commit(w, digest, appendOk).0 == AfterFailure(w, failure.value);
    assert failure.value.NotOpen? <==> w.journal.phase != Open;
    assert w.journal.phase == Open && w.store.simulation ==>
      (failure.value.StoreFailed? <==> ApplyEach(w.store.tables, w.journal.tick, w.journal.diffs).error.Some?);
    hide Commit, CommitFailure, ApplyEach, RolledBack, TablesWellFormed;
  }

  /** The store before the rollback of an open journal's commit: with a snapshot exactly if the whole batch applied. */
  function SnapshotLeft(w: World): StoreState
    requires TablesWellFormed(w.store.tables)
  {
    var applied := ApplyEach(w.store.tables, w.journal.tick, w.journal.diffs);
    if applied.error.Some? then w.store else WithSnapshot(w.store.(tables := applied.tables), w.journal.tick)
  }

  /** When a commit fails, by what a caller can check beforehand. */
  lemma CommitFailsIff(w: World, digest: Digest, appendOk: bool)
    requires TablesWellFormed(w.store.tables)
    ensures Commit(w, digest, appendOk).1.Ok? <==>
      w.journal.phase == Open && w.store.simulation &&
      ApplyEach(w.store.tables, w.journal.tick, w.journal.diffs).error.None? &&
      StateHash(digest, w.journal.diffs).Some? && CanPublish(w.engine, w.store.tables) && (w.saving ==> appendOk)
  {
    hide ApplyEach, StateHash, CanPublish, BatchesWellFormed;
  }

  /** The diffs of the pending batch that leave a trace cancel out. */
  predicate FailureUndone(w: World)
    requires TablesWellFormed(w.store.tables)
  {
    var tables, tick, diffs := w.store.tables, w.journal.tick, w.journal.diffs;
    w.journal.phase == Open && w.store.simulation ==> Undone(tables, tick, Traced(diffs, Applied(tables, tick, diffs)))
  }

  /** A failed commit leaves the tables as they were exactly then. */
  lemma FailedCommitRestoresIff(w: World, digest: Digest, appendOk: bool)
    requires TablesWellFormed(w.store.tables) && Commit(w, digest, appendOk).1.Err?
    ensures Commit(w, digest, appendOk).0.store.tables == w.store.tables <==> FailureUndone(w)
  {
    FailedCommitTables(w, digest, appendOk);
    RollbackRestoresIff(w.store.tables, w.journal.tick, w.journal.diffs);
    hide Commit, RolledBack, Undone, Traced, Applied, TablesWellFormed, SnapshotLeft;
  }

  lemma UpdatesAreUndone(w: World)
    requires TablesWellFormed(w.store.tables) && UpdatesOnly(w.journal.diffs)
    ensures FailureUndone(w)
  {
    UpdatesRollBackCompletely(w.store.tables, w.journal.tick, w.journal.diffs);
    RollbackRestoresIff(w.store.tables, w.journal.tick, w.journal.diffs);
    hide RolledBack, Undone, Traced, Applied, TablesWellFormed;
  }

  /** A commit whose failure is undone, as that of updates alone always is: retried with a working save journal, it ends
      in the same tables, records and engine as one that succeeds at once. */
  lemma UndoneRetryLikeFirstTime(w: World, digest: Digest)
    requires TablesWellFormed(w.store.tables) && w.saving
    requires FailureUndone(w) || UpdatesOnly(w.journal.diffs)
    requires Commit(w, digest, false).1.Err? && Commit(w, digest, true).1.Ok?
    ensures var retried := Commit(Commit(w, digest, false).0, digest, true);
      var direct := Commit(w, digest, true);
      retried.1 == direct.1 && retried.0.journal == direct.0.journal && retried.0.engine == direct.0.engine &&
      retried.0.store.tables == direct.0.store.tables
  {
    if UpdatesOnly(w.journal.diffs) {
      UpdatesAreUndone(w);
    }
    FailedCommitRestoresIff(w, digest, false);
    RetryFromSameTables(w, Commit(w, digest, false).0, digest);
    FailedCommitTables(w, digest, false);
    FailedCommitIsAtomic(w, digest, false);
    hide Commit, FailureUndone, UpdatesOnly, SnapshotLeft, RolledBack, TablesWellFormed, SameVersions;
  }

  lemma RetryFromSameTables(w: World, after: World, digest: Digest)
    requires TablesWellFormed(w.store.tables) && Commit(w, digest, true).1.Ok?
    requires after == w.(store := after.store)
    requires after.store.tables == w.store.tables && after.store.simulation == w.store.simulation
    ensures Commit(after, digest, true).1 == Commit(w, digest, true).1
    ensures Commit(after, digest, true).0.journal == Commit(w, digest, true).0.journal
    ensures Commit(after, digest, true).0.engine == Commit(w, digest, true).0.engine
    ensures Commit(after, digest, true).0.store.tables == Commit(w, digest, true).0.store.tables
  {
    CommitFailsIff(w, digest, true);
    CommitFailsIff(after, digest, true);
    hide ApplyEach, RolledBack, BatchesWellFormed, StateHash, CanPublish, Bounded, AfterPublish;
  }

  // ---------------------------------------------------------------- runs

  datatype Event =
    | SubmitDiff(diff: Diff)
    | SubmitCommand(envelope: Envelope)
    | TryCommit(appendOk: bool)

  /** A run's world, the records of its successful commits, and what was accepted from submitters. */
  datatype Run = Run(world: World, log: seq<CommitRecord>, diffs: seq<Diff>, commands: seq<Envelope>)

  function Start(store: StoreState, engine: Option<EngineState>, saving: bool): Run {
    Run(World(JournalState(0, Open, [], [], []), store, engine, saving), [], [], [])
  }

  function StepRun(r: Run, digest: Digest, e: Event): (after: Run)
    requires TablesWellFormed(r.world.store.tables)
    ensures TablesWellFormed(after.world.store.tables)
  {
    var j := r.world.journal;
    match e
    case SubmitDiff(d) =>
      if j.phase != Open then r
      else r.(world := r.world.(journal := j.(diffs := j.diffs + [d])), diffs := r.diffs + [d])
    case SubmitCommand(c) =>
      if j.phase != Open || c.tick != j.tick then r
      else r.(world := r.world.(journal := j.(commands := j.commands + [c])), commands := r.commands + [c])
    case TryCommit(appendOk) =>
      var (after, result) := Commit(r.world, digest, appendOk);
      match result
      case Err(_) => r.(world := after)
      case Ok(c) => r.(world := after, log := r.log + [CommitRecord(j.tick, j.diffs, j.commands, c.stateHash)])
  }

  function RunFrom(start: Run, digest: Digest, events: seq<Event>): (after: Run)
    requires TablesWellFormed(start.world.store.tables)
    ensures TablesWellFormed(after.world.store.tables)
  {
    if events == [] then start
    else StepRun(RunFrom(start, digest, events[..|events| - 1]), digest, events[|events| - 1])
  }

  // ---------------------------------------------------------------- batches that can never be committed

  lemma StepStaysStuck(r: Run, digest: Digest, e: Event, name: string, row: RowId)
    requires TablesWellFormed(r.world.store.tables) && Unmet(r.world.store.tables, r.world.journal.diffs, name, row)
    ensures var after := StepRun(r, digest, e);
      after.log == r.log && Unmet(after.world.store.tables, after.world.journal.diffs, name, row)
  {
    var j := r.world.journal;
    match e
    case SubmitDiff(d) =>
      assert (j.diffs + [d])[..|j.diffs|] == j.diffs;
      FirstUseStays(j.diffs + [d], |j.diffs|, name, row);
    case SubmitCommand(_) =>
    case TryCommit(appendOk) =>
      UnmetStaysUnmet(r.world.store.tables, j.tick, j.diffs, name, row);
      CommitFailsIff(r.world, digest, appendOk);
      FailedCommitTables(r.world, digest, appendOk);
      hide Commit, ApplyEach, RolledBack, TablesWellFormed, Unmet, SnapshotLeft;
  }

  lemma {:induction false} RunStaysStuck(r: Run, digest: Digest, events: seq<Event>, name: string, row: RowId)
    requires TablesWellFormed(r.world.store.tables) && Unmet(r.world.store.tables, r.world.journal.diffs, name, row)
    ensures var after := RunFrom(r, digest, events);
      after.log == r.log && Unmet(after.world.store.tables, after.world.journal.diffs, name, row)
  {
    if events != [] {
      RunStaysStuck(r, digest, events[..|events| - 1], name, row);
      StepStaysStuck(RunFrom(r, digest, events[..|events| - 1]), digest, events[|events| - 1], name, row);
    }
    hide StepRun, TablesWellFormed, Unmet;
  }

  /** If a commit fails after its batch applied, and the batch leaves some row the opposite of what its first diff
      about the row asks, then no commit succeeds ever after, however often it is retried and whatever is submitted
      besides. */
  lemma UnbalancedCommitIsStuck(r: Run, digest: Digest, appendOk: bool, name: string, row: RowId, events: seq<Event>)
    requires TablesWellFormed(r.world.store.tables) && r.world.journal.phase == Open && r.world.store.simulation
    requires ApplyEach(r.world.store.tables, r.world.journal.tick, r.world.journal.diffs).error.None?
    requires Commit(r.world, digest, appendOk).1.Err?
    requires name in r.world.store.tables &&
      Unbalanced(r.world.store.tables[name].spec, r.world.journal.diffs, name, row)
    ensures RunFrom(StepRun(r, digest, TryCommit(appendOk)), digest, events).log == r.log
  {
    var failed := StepRun(r, digest, TryCommit(appendOk));
    FailedCommitTables(r.world, digest, appendOk);
    UnbalancedIsUnmet(r.world.store.tables, r.world.journal.tick, r.world.journal.diffs, name, row);
    FailedStep(r, digest, appendOk);
    RunStaysStuck(failed, digest, events, name, row);
    hide *;
  }

  lemma FailedStep(r: Run, digest: Digest, appendOk: bool)
    requires TablesWellFormed(r.world.store.tables) && Commit(r.world, digest, appendOk).1.Err?
    ensures StepRun(r, digest, TryCommit(appendOk)) == r.(world := Commit(r.world, digest, appendOk).0)
  {
    hide Commit, BatchesWellFormed;
  }

  // ---------------------------------------------------------------- conservation

  function LoggedDiffs(log: seq<CommitRecord>): seq<Diff> {
    if log == [] then [] else LoggedDiffs(log[..|log| - 1]) + log[|log| - 1].diffs
  }

  function LoggedCommands(log: seq<CommitRecord>): seq<Envelope> {
    if log == [] then [] else LoggedCommands(log[..|log| - 1]) + log[|log| - 1].commands
  }

  function Min(a: nat, b: nat): nat {
    if a < b then a else b
  }

  /** What holds between events: nothing submitted is lost, repeated or reordered; the log's ticks are consecutive up
      to the saturating tick; the history is the log's tail; commands carry the tick they are recorded under. */
  ghost predicate Accounted(r: Run) {
    var j := r.world.journal;
    j.phase == Open && j.tick == Min(|r.log|, TICK_MAX) &&
    r.diffs == LoggedDiffs(r.log) + j.diffs &&
    r.commands == LoggedCommands(r.log) + j.commands &&
    (forall i :: 0 <= i < |r.log| ==> r.log[i].tick == Min(i, TICK_MAX)) &&
    (forall i, c :: 0 <= i < |r.log| && c in r.log[i].commands ==> c.tick == r.log[i].tick) &&
    (forall c :: c in j.commands ==> c.tick == j.tick) &&
    j.history == r.log[|r.log| - Min(|r.log|, MAX_COMMIT_HISTORY)..]
  }

  lemma CommitSucceeds(w: World, digest: Digest, appendOk: bool)
    requires TablesWellFormed(w.store.tables) && Commit(w, digest, appendOk).1.Ok?
    ensures var (after, result) := Commit(w, digest, appendOk);
      var j := w.journal;
      j.phase == Open && after.saving == w.saving &&
      after.journal == JournalState(NextTick(j.tick), Open, [], [],
        Bounded(j.history + [CommitRecord(j.tick, j.diffs, j.commands, result.value.stateHash)])) &&
      after.store.tables == ApplyEach(w.store.tables, j.tick, j.diffs).tables &&
      after.store.simulation == w.store.simulation &&
      CanPublish(w.engine, w.store.tables) && after.engine == AfterPublish(w.engine, after.store.tables, j.tick)
  {
    hide ApplyEach, StateHash, CanPublish, BatchesWellFormed, Bounded, AfterPublish;
  }

  lemma StepKeepsAccounts(r: Run, digest: Digest, e: Event)
    requires TablesWellFormed(r.world.store.tables) && Accounted(r)
    ensures Accounted(StepRun(r, digest, e))
  {
    hide Commit, BatchesWellFormed;
    if e.TryCommit? {
      var (after, result) := Commit(r.world, digest, e.appendOk);
      if result.Err? {
        FailedCommitIsAtomic(r.world, digest, e.appendOk);
      } else {
        CommitSucceeds(r.world, digest, e.appendOk);
        RecordKeepsAccounts(r, after,
          CommitRecord(r.world.journal.tick, r.world.journal.diffs, r.world.journal.commands, result.value.stateHash));
      }
    }
  }

  lemma RecordKeepsAccounts(r: Run, after: World, record: CommitRecord)
    requires Accounted(r)
    requires record.tick == r.world.journal.tick && record.diffs == r.world.journal.diffs &&
      record.commands == r.world.journal.commands
    requires after.journal ==
      JournalState(NextTick(record.tick), Open, [], [], Bounded(r.world.journal.history + [record]))
    ensures Accounted(r.(world := after, log := r.log + [record]))
  {
    var log := r.log + [record];
    assert log[..|log| - 1] == r.log;
    HistoryIsTail(r.log, r.world.journal.history, record);
    hide Bounded;
  }

  lemma HistoryIsTail(log: seq<CommitRecord>, history: seq<CommitRecord>, record: CommitRecord)
    requires history == log[|log| - Min(|log|, MAX_COMMIT_HISTORY)..]
    ensures Bounded(history + [record]) ==
      (log + [record])[|log + [record]| - Min(|log + [record]|, MAX_COMMIT_HISTORY)..]
  {
  }

  /** Conservation over whole runs, whatever the order of submissions and of failing and successful commits. */
  lemma {:induction false} RunKeepsAccounts(store: StoreState, engine: Option<EngineState>, saving: bool,
                                            digest: Digest, events: seq<Event>)
    requires TablesWellFormed(store.tables)
    ensures Accounted(RunFrom(Start(store, engine, saving), digest, events))
  {
    if events != [] {
      RunKeepsAccounts(store, engine, saving, digest, events[..|events| - 1]);
      StepKeepsAccounts(RunFrom(Start(store, engine, saving), digest, events[..|events| - 1]), digest,
        events[|events| - 1]);
    }
  }

  // ---------------------------------------------------------------- the engine over runs

  /** No table has a version later than a tick. */
  predicate TicksUpTo(tables: TableMap, tick: Tick) {
    forall n, u :: n in tables && u in tables[n].versions ==> u <= tick
  }

  lemma DiffTicks(t: Table, tick: Tick, d: Diff)
    requires BatchesWellFormed(t.versions)
    ensures ApplyDiff(t, tick, d).table.versions.Keys <= t.versions.Keys + {tick}
  {
    hide RowToBatch, ReplaceRows, UpdatePatch, NullPatch, Patched, WellFormed;
  }

  lemma OneTicks(tables: TableMap, tick: Tick, d: Diff)
    requires TablesWellFormed(tables) && TicksUpTo(tables, tick)
    ensures TicksUpTo(ApplyOne(tables, tick, d).tables, tick)
  {
    if d.name in tables {
      DiffTicks(tables[d.name], tick, d);
    }
    hide ApplyDiff, BatchesWellFormed;
  }

  lemma {:induction false} BatchTicks(tables: TableMap, tick: Tick, diffs: seq<Diff>)
    requires TablesWellFormed(tables) && TicksUpTo(tables, tick)
    ensures TicksUpTo(ApplyEach(tables, tick, diffs).tables, tick)
  {
    hide ApplyOne, TablesWellFormed, TicksUpTo;
    if diffs != [] {
      BatchTicks(tables, tick, diffs[..|diffs| - 1]);
      OneTicks(ApplyEach(tables, tick, diffs[..|diffs| - 1]).tables, tick, diffs[|diffs| - 1]);
    }
  }

  /** No version is later than the open tick, nor, once there was a commit, than the last committed one. */
  predicate TicksKept(r: Run) {
    && r.world.journal.tick <= TICK_MAX
    && TicksUpTo(r.world.store.tables, r.world.journal.tick)
    && (r.log != [] ==> TicksUpTo(r.world.store.tables, r.log[|r.log| - 1].tick))
  }

  lemma SameTicks(a: TableMap, b: TableMap, tick: Tick)
    requires SameVersions(a, b) && TicksUpTo(a, tick)
    ensures TicksUpTo(b, tick)
  {
  }

  lemma StepKeepsTicks(r: Run, digest: Digest, e: Event)
    requires TablesWellFormed(r.world.store.tables) && TicksKept(r)
    ensures TicksKept(StepRun(r, digest, e))
  {
    hide Commit, ApplyEach, BatchesWellFormed;
    if e.TryCommit? {
      var after := Commit(r.world, digest, e.appendOk).0;
      if Commit(r.world, digest, e.appendOk).1.Err? {
        FailedCommitIsAtomic(r.world, digest, e.appendOk);
        SameTicks(r.world.store.tables, after.store.tables, r.world.journal.tick);
        if r.log != [] {
          SameTicks(r.world.store.tables, after.store.tables, r.log[|r.log| - 1].tick);
        }
      } else {
        CommitSucceeds(r.world, digest, e.appendOk);
        BatchTicks(r.world.store.tables, r.world.journal.tick, r.world.journal.diffs);
        LaterTicks(after.store.tables, r.world.journal.tick, after.journal.tick);
      }
      hide TicksUpTo, SameVersions;
    }
  }

  lemma LaterTicks(tables: TableMap, tick: Tick, later: Tick)
    requires TicksUpTo(tables, tick) && tick <= later
    ensures TicksUpTo(tables, later)
  {
  }

  /** Over any run no table has a version later than the open tick, nor than the last committed one. */
  lemma {:induction false} RunKeepsTicks(start: Run, digest: Digest, events: seq<Event>)
    requires TablesWellFormed(start.world.store.tables) && TicksKept(start)
    ensures TicksKept(RunFrom(start, digest, events))
  {
    if events != [] {
      RunKeepsTicks(start, digest, events[..|events| - 1]);
      StepKeepsTicks(RunFrom(start, digest, events[..|events| - 1]), digest, events[|events| - 1]);
    }
    hide TicksKept, StepRun;
  }

  /** The engine shows the tables of its latest snapshot, whose batches are still those of the store. */
  ghost predicate Shows(e: EngineState, tables: TableMap) {
    && e.latestSnapshot.Some?
    && e.latestSnapshot.value.tick == e.latestTick
    && TablesWellFormed(e.latestSnapshot.value.tables)
    && e.cache == ViewsAt(e.latestSnapshot.value.tables, e.latestTick)
    && SameVersions(e.latestSnapshot.value.tables, tables)
  }

  /** Between events the engine is settled; before the first commit it is empty, after it shows the last commit. */
  ghost predicate EngineFollows(r: Run) {
    r.world.engine.Some? ==>
      Settled(r.world.engine.value) &&
      (r.log == [] ==> r.world.engine.value.latestTick == NO_TICK && r.world.engine.value.cache == map[]) &&
      (r.log != [] ==> r.world.engine.value.latestTick == r.log[|r.log| - 1].tick) &&
      (r.log != [] ==> Shows(r.world.engine.value, r.world.store.tables))
  }

  lemma StepKeepsEngine(r: Run, digest: Digest, e: Event)
    requires TablesWellFormed(r.world.store.tables) && EngineFollows(r) && Accounted(r)
    ensures EngineFollows(StepRun(r, digest, e))
  {
    hide Commit, BatchesWellFormed, Accounted, ApplyEach;
    if e.TryCommit? {
      var (after, result) := Commit(r.world, digest, e.appendOk);
      if result.Err? {
        FailedCommitIsAtomic(r.world, digest, e.appendOk);
      } else {
        CommitSucceeds(r.world, digest, e.appendOk);
        TickBelowSentinel(r);
        PublishedIsSettled(r.world.engine, after.store.tables, r.world.journal.tick);
      }
      hide Settled, Shows;
    }
  }

  lemma TickBelowSentinel(r: Run)
    requires Accounted(r)
    ensures r.world.journal.tick != NO_TICK
  {
  }

  lemma PublishedIsSettled(e: Option<EngineState>, tables: TableMap, tick: Tick)
    requires TablesWellFormed(tables) && tick != NO_TICK
    ensures e.Some? ==>
      Settled(AfterPublish(e, tables, tick).value) && AfterPublish(e, tables, tick).value.latestTick == tick
    ensures e.Some? ==> Shows(AfterPublish(e, tables, tick).value, tables)
  {
    hide BatchesWellFormed, MergedBatches, Merges;
  }

  /** Journal-driven runs keep the engine settled, so beginning an ingest never meets another one, and a read at a
      nonzero tick returns only views of that tick; and they keep it showing the last commit. */
  lemma {:induction false} RunKeepsEngine(store: StoreState, schemas: set<string>, saving: bool, digest: Digest,
                                          events: seq<Event>)
    requires TablesWellFormed(store.tables)
    ensures var start := Start(store, Some(EngineState(schemas, map[], NO_TICK, None, None)), saving);
      EngineFollows(RunFrom(start, digest, events)) && Accounted(RunFrom(start, digest, events))
  {
    var start := Start(store, Some(EngineState(schemas, map[], NO_TICK, None, None)), saving);
    RunKeepsAccounts(store, start.world.engine, saving, digest, events);
    if events != [] {
      RunKeepsEngine(store, schemas, saving, digest, events[..|events| - 1]);
      StepKeepsEngine(RunFrom(start, digest, events[..|events| - 1]), digest, events[|events| - 1]);
    }
    hide StepRun, Accounted, Shows, TablesWellFormed;
  }

  /** The row a reader gets from an engine. */
  function Reads(e: EngineState, name: string, row: RowId): Option<Row>
    requires name in e.cache && AllWellFormed(e.cache[name].batches)
  {
    ReadRow(e.cache[name].batches, e.cache[name].positions, row)
  }

  /** The row a table has, if it is located in a tick. */
  function RowOfTick(t: Table, tick: Tick, row: RowId): Option<Row>
    requires BatchesWellFormed(t.versions)
  {
    if row in AbsRows(t) && LocTick(t.versions, t.positions[row].0) == Some(tick) then Some(AbsRows(t)[row]) else None
  }

  lemma ShownRows(e: EngineState, tables: TableMap, name: string, row: RowId)
    requires Shows(e, tables) && name in e.cache
    requires TicksUpTo(tables, e.latestTick)
    ensures var shown := e.latestSnapshot.value.tables;
      name in shown && BatchesWellFormed(shown[name].versions) && AllWellFormed(e.cache[name].batches) &&
      Reads(e, name, row) == RowOfTick(shown[name], e.latestTick, row)
  {
    var t := e.latestSnapshot.value.tables[name];
    ViewReadsOriginal(name, e.latestTick, BatchesAt(t.versions, e.latestTick), t.positions, row);
    TicksNotLater(t, e.latestTick, row);
    ViewShowsRowsOfTick(t, name, e.latestTick, row);
    hide ReadRow, AbsRows, LocTick, ViewOf, WellFormed, NotLater;
  }

  lemma TicksNotLater(t: Table, tick: Tick, row: RowId)
    requires forall u :: u in t.versions ==> u <= tick
    ensures NotLater(t, row, tick)
  {
  }

  /** At every moment of every run, whatever was inserted at which ticks and whichever commits failed, a reader gets
      exactly the rows of the last commit's tables that are located in the last committed tick. */
  lemma RunShowsRows(store: StoreState, schemas: set<string>, saving: bool, digest: Digest, events: seq<Event>,
                     name: string, row: RowId)
    requires TablesWellFormed(store.tables) && TicksUpTo(store.tables, 0)
    ensures
      var r := RunFrom(Start(store, Some(EngineState(schemas, map[], NO_TICK, None, None)), saving), digest, events);
      r.world.engine.Some? && name in r.world.engine.value.cache ==>
        var e := r.world.engine.value;
        && e.latestSnapshot.Some? && name in e.latestSnapshot.value.tables
        && BatchesWellFormed(e.latestSnapshot.value.tables[name].versions) && AllWellFormed(e.cache[name].batches)
        && Reads(e, name, row) == RowOfTick(e.latestSnapshot.value.tables[name], e.latestTick, row)
  {
    var start := Start(store, Some(EngineState(schemas, map[], NO_TICK, None, None)), saving);
    RunKeepsEngine(store, schemas, saving, digest, events);
    RunKeepsTicks(start, digest, events);
    var r := RunFrom(start, digest, events);
    hide RunFrom, Accounted, Shows, TicksUpTo, TablesWellFormed, Reads, RowOfTick, Settled;
    if r.world.engine.Some? && name in r.world.engine.value.cache {
      ShownRows(r.world.engine.value, r.world.store.tables, name, row);
    }
  }

  /** After a successful commit a reader gets a row exactly if it is located in the committed tick. So it gets the whole
      table exactly when every row is located there. */
  lemma CommitPublishesRows(w: World, digest: Digest, appendOk: bool, name: string, row: RowId)
    requires TablesWellFormed(w.store.tables)
    requires Commit(w, digest, appendOk).1.Ok? && w.engine.Some? && name in w.store.tables
    requires NotLater(ApplyEach(w.store.tables, w.journal.tick, w.journal.diffs).tables[name], row, w.journal.tick)
    ensures var after := Commit(w, digest, appendOk).0;
      && name in after.store.tables && BatchesWellFormed(after.store.tables[name].versions)
      && name in after.engine.value.cache && AllWellFormed(after.engine.value.cache[name].batches)
      && Reads(after.engine.value, name, row) == RowOfTick(after.store.tables[name], w.journal.tick, row)
  {
    CommitSucceeds(w, digest, appendOk);
    var after := Commit(w, digest, appendOk).0;
    PublishedRows(w.engine, after.store.tables, w.journal.tick, name, row);
    hide Commit, ApplyEach, Reads, RowOfTick, TablesWellFormed, AfterPublish, NotLater;
  }

  lemma PublishedRows(e: Option<EngineState>, tables: TableMap, tick: Tick, name: string, row: RowId)
    requires TablesWellFormed(tables) && e.Some? && name in tables && NotLater(tables[name], row, tick)
    ensures var published := AfterPublish(e, tables, tick).value;
      && BatchesWellFormed(tables[name].versions)
      && name in published.cache && AllWellFormed(published.cache[name].batches)
      && Reads(published, name, row) == RowOfTick(tables[name], tick, row)
  {
    var t := tables[name];
    ViewReadsOriginal(name, tick, BatchesAt(t.versions, tick), t.positions, row);
    ViewShowsRowsOfTick(t, name, tick, row);
    hide ReadRow, AbsRows, LocTick, ViewOf, WellFormed, NotLater;
  }

  /** In a run every commit meets that premise for every row. */
  lemma RunPublishesRows(start: Run, digest: Digest, events: seq<Event>, appendOk: bool, name: string, row: RowId)
    requires TablesWellFormed(start.world.store.tables) && TicksKept(start)
    requires var w := RunFrom(start, digest, events).world;
      Commit(w, digest, appendOk).1.Ok? && w.engine.Some? && name in w.store.tables
    ensures var w := RunFrom(start, digest, events).world;
      var after := Commit(w, digest, appendOk).0;
      && name in after.store.tables && BatchesWellFormed(after.store.tables[name].versions)
      && name in after.engine.value.cache && AllWellFormed(after.engine.value.cache[name].batches)
      && Reads(after.engine.value, name, row) == RowOfTick(after.store.tables[name], w.journal.tick, row)
  {
    RunKeepsTicks(start, digest, events);
    var w := RunFrom(start, digest, events).world;
    BatchTicks(w.store.tables, w.journal.tick, w.journal.diffs);
    TicksNotLater(ApplyEach(w.store.tables, w.journal.tick, w.journal.diffs).tables[name], w.journal.tick, row);
    CommitPublishesRows(w, digest, appendOk, name, row);
    hide Commit, ApplyEach, Reads, RowOfTick, TablesWellFormed, NotLater, RunFrom;
  }

  /** A commit of updates alone, to a table whose rows were inserted at earlier ticks, publishes the table empty: the
      updated rows are live in the store and no reader finds any of them. */
  lemma UpdatedOldRowsVanish(w: World, digest: Digest, appendOk: bool, name: string, row: RowId)
    requires TablesWellFormed(w.store.tables) && Commit(w, digest, appendOk).1.Ok? && w.engine.Some?
    requires name in w.store.tables && UpdatesOnly(w.journal.diffs) && w.journal.tick !in w.store.tables[name].versions
    ensures var e := Commit(w, digest, appendOk).0.engine.value;
      name in e.cache && e.cache[name].batches == [] && ReadRow([], e.cache[name].positions, row) == None &&
      Commit(w, digest, appendOk).0.store.tables[name].positions == w.store.tables[name].positions
  {
    CommitSucceeds(w, digest, appendOk);
    ApplyEachFrame(w.store.tables, w.journal.tick, w.journal.diffs);
    hide Commit, ApplyEach;
  }

  // ---------------------------------------------------------------- the store's snapshots over runs

  lemma SuccessSnapshot(w: World, digest: Digest, appendOk: bool)
    requires TablesWellFormed(w.store.tables) && Commit(w, digest, appendOk).1.Ok?
    ensures var after := Commit(w, digest, appendOk).0;
      after.store.snapshots == w.store.snapshots[w.journal.tick := Snapshot(w.journal.tick, after.store.tables)]
  {
    hide ApplyEach, StateHash, CanPublish, BatchesWellFormed, Bounded, AfterPublish;
  }

  /** A commit writes the snapshot of the open tick only, and a successful one leaves there what it produced. */
  lemma StepSnapshots(r: Run, digest: Digest, e: Event)
    requires TablesWellFormed(r.world.store.tables) && r.world.journal.tick <= TICK_MAX
    ensures var after := StepRun(r, digest, e);
      && after.world.store.snapshots - {r.world.journal.tick} == r.world.store.snapshots - {r.world.journal.tick}
      && r.world.journal.tick <= after.world.journal.tick <= TICK_MAX
      && (after.log != r.log ==> Produced(after.world.store, r.world.journal.tick, after.world.store.tables))
      && (r.world.journal.tick in after.world.store.snapshots || after.world.store.snapshots == r.world.store.snapshots)
  {
    hide Commit, ApplyEach, BatchesWellFormed;
    if e.TryCommit? {
      if Commit(r.world, digest, e.appendOk).1.Err? {
        FailedCommitIsAtomic(r.world, digest, e.appendOk);
        FailedCommitTables(r.world, digest, e.appendOk);
      } else {
        CommitSucceeds(r.world, digest, e.appendOk);
        SuccessSnapshot(r.world, digest, e.appendOk);
      }
      hide RolledBack, SameVersions;
    }
  }

  /** The store's snapshot at a tick holds these tables. */
  predicate Produced(s: StoreState, tick: Tick, tables: TableMap) {
    tick in s.snapshots && s.snapshots[tick] == Snapshot(tick, tables)
  }

  /** Snapshots of past ticks stay. */
  lemma {:induction false} PastSnapshotStays(r: Run, digest: Digest, events: seq<Event>, tick: Tick, tables: TableMap)
    requires TablesWellFormed(r.world.store.tables) && tick < r.world.journal.tick <= TICK_MAX
    requires Produced(r.world.store, tick, tables)
    ensures Produced(RunFrom(r, digest, events).world.store, tick, tables)
    ensures tick < RunFrom(r, digest, events).world.journal.tick <= TICK_MAX
  {
    if events != [] {
      var before := RunFrom(r, digest, events[..|events| - 1]);
      PastSnapshotStays(r, digest, events[..|events| - 1], tick, tables);
      StepSnapshots(before, digest, events[|events| - 1]);
      hide StepRun, BatchesWellFormed;
      assert tick in before.world.store.snapshots - {before.world.journal.tick};
    }
  }

  lemma {:induction false} RunSplits(start: Run, digest: Digest, xs: seq<Event>, ys: seq<Event>)
    requires TablesWellFormed(start.world.store.tables)
    ensures RunFrom(start, digest, xs + ys) == RunFrom(RunFrom(start, digest, xs), digest, ys)
    decreases |ys|
  {
    hide StepRun, BatchesWellFormed;
    if ys == [] {
      assert xs + ys == xs;
    } else {
      assert (xs + ys)[..|xs + ys| - 1] == xs + ys[..|ys| - 1];
      RunSplits(start, digest, xs, ys[..|ys| - 1]);
    }
  }

  /** At the end of a run the store's snapshot of every committed tick is what that commit produced. */
  lemma CommittedSnapshotStays(start: Run, digest: Digest, events: seq<Event>, appendOk: bool, later: seq<Event>)
    requires TablesWellFormed(start.world.store.tables) && start.world.journal.tick <= TICK_MAX
    requires var w := RunFrom(start, digest, events).world;
      Commit(w, digest, appendOk).1.Ok? && w.journal.tick < TICK_MAX
    ensures var w := RunFrom(start, digest, events).world;
      Produced(RunFrom(start, digest, events + [TryCommit(appendOk)] + later).world.store, w.journal.tick,
               Commit(w, digest, appendOk).0.store.tables)
  {
    RunTicksBounded(start, digest, events);
    var before := RunFrom(start, digest, events);
    RunSplits(start, digest, events + [TryCommit(appendOk)], later);
    RunSplits(start, digest, events, [TryCommit(appendOk)]);
    OneEvent(before, digest, TryCommit(appendOk));
    CommitSucceeds(before.world, digest, appendOk);
    SuccessSnapshot(before.world, digest, appendOk);
    SucceededStep(before, digest, appendOk);
    var after := StepRun(before, digest, TryCommit(appendOk));
    hide Commit, ApplyEach, RunFrom, StepRun, BatchesWellFormed;
    PastSnapshotStays(after, digest, later, before.world.journal.tick, after.world.store.tables);
  }

  lemma OneEvent(r: Run, digest: Digest, e: Event)
    requires TablesWellFormed(r.world.store.tables)
    ensures RunFrom(r, digest, [e]) == StepRun(r, digest, e)
  {
    assert [e][..0] == [];
    hide StepRun, BatchesWellFormed;
  }

  lemma SucceededStep(r: Run, digest: Digest, appendOk: bool)
    requires TablesWellFormed(r.world.store.tables) && Commit(r.world, digest, appendOk).1.Ok?
    ensures StepRun(r, digest, TryCommit(appendOk)).world == Commit(r.world, digest, appendOk).0
  {
    hide Commit, BatchesWellFormed;
  }

  lemma {:induction false} RunTicksBounded(start: Run, digest: Digest, events: seq<Event>)
    requires TablesWellFormed(start.world.store.tables) && start.world.journal.tick <= TICK_MAX
    ensures RunFrom(start, digest, events).world.journal.tick <= TICK_MAX
  {
    if events != [] {
      RunTicksBounded(start, digest, events[..|events| - 1]);
      StepSnapshots(RunFrom(start, digest, events[..|events| - 1]), digest, events[|events| - 1]);
    }
    hide StepRun, BatchesWellFormed;
  }

  /** Every snapshot belongs to a committed tick or to the open one. */
  predicate SnapshotsLogged(r: Run) {
    && r.world.journal.tick <= TICK_MAX
    && forall t :: t in r.world.store.snapshots ==> t == r.world.journal.tick || InLog(r.log, t)
  }

  predicate InLog(log: seq<CommitRecord>, tick: Tick) {
    exists i :: 0 <= i < |log| && log[i].tick == tick
  }

  lemma StepKeepsSnapshotsLogged(r: Run, digest: Digest, e: Event)
    requires TablesWellFormed(r.world.store.tables) && SnapshotsLogged(r)
    ensures SnapshotsLogged(StepRun(r, digest, e))
  {
    StepSnapshots(r, digest, e);
    LogGrows(r, digest, e);
    var after := StepRun(r, digest, e);
    hide StepRun, BatchesWellFormed, Produced;
    forall t | t in after.world.store.snapshots ensures t == after.world.journal.tick || InLog(after.log, t) {
      if t != r.world.journal.tick {
        assert t in after.world.store.snapshots - {r.world.journal.tick};
        assert t in r.world.store.snapshots;
      }
    }
  }

  lemma LogGrows(r: Run, digest: Digest, e: Event)
    requires TablesWellFormed(r.world.store.tables)
    ensures var after := StepRun(r, digest, e);
      && (forall t :: InLog(r.log, t) ==> InLog(after.log, t))
      && (InLog(after.log, r.world.journal.tick) || after.world.journal.tick == r.world.journal.tick)
  {
    hide Commit, ApplyEach, BatchesWellFormed;
    var after := StepRun(r, digest, e);
    if e.TryCommit? && Commit(r.world, digest, e.appendOk).1.Ok? {
      assert after.log[|r.log|].tick == r.world.journal.tick;
    } else if e.TryCommit? {
      FailedCommitIsAtomic(r.world, digest, e.appendOk);
    }
    assert after.log[..|r.log|] == r.log;
  }

  /** So a failed commit can leave a snapshot at the open tick and at no other. */
  lemma {:induction false} RunKeepsSnapshotsLogged(start: Run, digest: Digest, events: seq<Event>)
    requires TablesWellFormed(start.world.store.tables) && SnapshotsLogged(start)
    ensures SnapshotsLogged(RunFrom(start, digest, events))
  {
    if events != [] {
      RunKeepsSnapshotsLogged(start, digest, events[..|events| - 1]);
      StepKeepsSnapshotsLogged(RunFrom(start, digest, events[..|events| - 1]), digest, events[|events| - 1]);
    }
    hide StepRun, SnapshotsLogged, BatchesWellFormed;
  }

  // ---------------------------------------------------------------- replay

  /** Replay committed records onto a set of tables. */
  function Replay(tables: TableMap, log: seq<CommitRecord>): (after: TableMap)
    requires TablesWellFormed(tables)
    ensures TablesWellFormed(after)
  {
    if log == [] then tables
    else ApplyEach(Replay(tables, log[..|log| - 1]), log[|log| - 1].tick, log[|log| - 1].diffs).tables
  }

  /** Every commit of the run that fails is undone. */
  predicate FailuresUndone(start: Run, digest: Digest, events: seq<Event>)
    requires TablesWellFormed(start.world.store.tables)
  {
    events == [] ||
    (FailuresUndone(start, digest, events[..|events| - 1]) &&
     StepUndone(RunFrom(start, digest, events[..|events| - 1]).world, digest, events[|events| - 1]))
  }

  predicate StepUndone(w: World, digest: Digest, e: Event)
    requires TablesWellFormed(w.store.tables)
  {
    e.TryCommit? && Commit(w, digest, e.appendOk).1.Err? ==> FailureUndone(w)
  }

  /** Replaying the records reproduces the live tables, positions and key indexes included. */
  predicate Reproduced(start: Run, digest: Digest, events: seq<Event>)
    requires TablesWellFormed(start.world.store.tables)
  {
    RunFrom(start, digest, events).world.store.tables ==
    Replay(start.world.store.tables, RunFrom(start, digest, events).log)
  }

  /** Replay reproduces the tables after every event of a run exactly when every failed commit of the run is undone. */
  lemma {:induction false} ReplayReproducesTablesIff(start: Run, digest: Digest, events: seq<Event>)
    requires TablesWellFormed(start.world.store.tables) && start.log == []
    ensures FailuresUndone(start, digest, events) <==>
      forall k :: 0 <= k <= |events| ==> Reproduced(start, digest, events[..k])
  {
    hide RunFrom, Replay, TablesWellFormed, StepUndone, Reproduced;
    if events == [] {
      NothingToReplay(start, digest);
      assert forall k :: 0 <= k <= |events| ==> events[..k] == [];
      return;
    }
    var before := events[..|events| - 1];
    ReplayReproducesTablesIff(start, digest, before);
    assert forall k :: 0 <= k <= |before| ==> before[..k] == events[..k];
    assert events[..|events|] == events && before[..|before|] == before;
    if Reproduced(start, digest, before) {
      ReplayStep(start, digest, before, events[|events| - 1]);
      assert before + [events[|events| - 1]] == events;
    }
    assert FailuresUndone(start, digest, before) ==> Reproduced(start, digest, before[..|before|]);
  }

  lemma NothingToReplay(start: Run, digest: Digest)
    requires TablesWellFormed(start.world.store.tables) && start.log == []
    ensures Reproduced(start, digest, [])
  {
    hide TablesWellFormed;
  }

  lemma ReplayStep(start: Run, digest: Digest, events: seq<Event>, e: Event)
    requires TablesWellFormed(start.world.store.tables) && Reproduced(start, digest, events)
    ensures Reproduced(start, digest, events + [e]) <==> StepUndone(RunFrom(start, digest, events).world, digest, e)
  {
    var tables, r := start.world.store.tables, RunFrom(start, digest, events);
    assert (events + [e])[..|events|] == events;
    assert RunFrom(start, digest, events + [e]) == StepRun(r, digest, e);
    hide RunFrom, Commit, ApplyEach, BatchesWellFormed, FailureUndone;
    if e.TryCommit? {
      var (after, result) := Commit(r.world, digest, e.appendOk);
      if result.Err? {
        FailedCommitRestoresIff(r.world, digest, e.appendOk);
      } else {
        CommitSucceeds(r.world, digest, e.appendOk);
        var record := CommitRecord(r.world.journal.tick, r.world.journal.diffs, r.world.journal.commands,
          result.value.stateHash);
        assert (r.log + [record])[..|r.log|] == r.log;
      }
    }
  }

  /** So for every run whose failed commits are undone, replaying the log from the starting tables gives its tables. */
  lemma ReplayReproducesTables(start: Run, digest: Digest, events: seq<Event>)
    requires TablesWellFormed(start.world.store.tables) && start.log == []
    requires FailuresUndone(start, digest, events)
    ensures RunFrom(start, digest, events).world.store.tables ==
            Replay(start.world.store.tables, RunFrom(start, digest, events).log)
  {
    ReplayReproducesTablesIff(start, digest, events);
    assert Reproduced(start, digest, events[..|events|]) && events[..|events|] == events;
    hide RunFrom, Replay, TablesWellFormed, FailuresUndone;
  }

  /** Submit one diff, let its commit fail at the save journal, and see the log still empty but the tables changed. */
  lemma DirtyRun(tables: TableMap, digest: Digest, d: Diff)
    requires TablesWellFormed(tables) && digest(d).Some?
    requires ApplyEach(tables, 0, [d]).error.None? && ApplyEach(RolledBack(tables, 0, [d]), 0, [d]).error.Some?
    ensures var r := RunFrom(Start(StoreState(tables, map[], 0, true), None, true), digest,
      [SubmitDiff(d), TryCommit(false)]);
      r.log == [] && r.world.store.tables != Replay(tables, r.log)
  {
    hide ApplyEach, RolledBack, BatchesWellFormed, Commit, StateHash, RunFrom, Replay, StepRun;
    var start := Start(StoreState(tables, map[], 0, true), None, true);
    SubmittedRun(start, digest, d);
    var r := RunFrom(start, digest, [SubmitDiff(d)]);
    TwoEvents(start, digest, SubmitDiff(d), TryCommit(false));
    OneHash(digest, d);
    CommitFailsIff(r.world, digest, false);
    FailedCommitTables(r.world, digest, false);
    EmptyReplay(tables);
    DirtyStep(r, digest);
  }

  lemma OneHash(digest: Digest, d: Diff)
    ensures StateHash(digest, [d]).Some? <==> digest(d).Some?
  {
    assert [d][..0] == [];
  }

  lemma EmptyReplay(tables: TableMap)
    requires TablesWellFormed(tables)
    ensures Replay(tables, []) == tables
  {
  }

  lemma DirtyStep(r: Run, digest: Digest)
    requires TablesWellFormed(r.world.store.tables) && Commit(r.world, digest, false).1.Err?
    ensures var after := StepRun(r, digest, TryCommit(false));
      after.log == r.log && after.world.store.tables == Commit(r.world, digest, false).0.store.tables
  {
    hide Commit, BatchesWellFormed;
  }

  lemma SubmittedRun(start: Run, digest: Digest, d: Diff)
    requires TablesWellFormed(start.world.store.tables) && start.world.journal == JournalState(0, Open, [], [], [])
    ensures var r := RunFrom(start, digest, [SubmitDiff(d)]);
      r.log == start.log && r.world == start.world.(journal := JournalState(0, Open, [], [d], []))
  {
    assert [SubmitDiff(d)][..0] == [] && [] + [d] == [d];
    hide Commit, BatchesWellFormed;
  }

  lemma TwoEvents(start: Run, digest: Digest, x: Event, y: Event)
    requires TablesWellFormed(start.world.store.tables)
    ensures RunFrom(start, digest, [x, y]) == StepRun(RunFrom(start, digest, [x]), digest, y)
  {
    assert [x, y][..1] == [x];
    hide StepRun, BatchesWellFormed;
  }

  /** The premise of ReplayReproducesTables is needed: one failed insert into an empty table breaks it. */
  lemma ReplayWitness(digest: Digest)
    requires digest(Diff.Insert("t", 7, OneCell(10))).Some?
    ensures TablesWellFormed(map["t" := EMPTY_TABLE])
    ensures var d := Diff.Insert("t", 7, OneCell(10));
      var r := RunFrom(Start(StoreState(map["t" := EMPTY_TABLE], map[], 0, true), None, true), digest,
        [SubmitDiff(d), TryCommit(false)]);
      r.log == [] && r.world.store.tables != Replay(map["t" := EMPTY_TABLE], r.log)
  {
    InsertRetryWitness();
    hide ApplyEach, RolledBack, RunFrom, Replay;
    DirtyRun(map["t" := EMPTY_TABLE], digest, Diff.Insert("t", 7, OneCell(10)));
  }
}
