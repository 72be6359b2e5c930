/** The fate of a batch whose commit failed after it had applied: the first retry decides for all. */
module JournalRetries {
  import opened Machine
  import opened Batches
  import opened KeyIndexes
  import opened Tables
  import opened TableRefinement
  import opened Stores
  import opened StoreRollback
  import opened StoreRetries
  import opened QueryEngines
  import opened Journals
  import opened JournalRuns

  // ---------------------------------------------------------------- one schema per table, over runs

  lemma DiffKeepsUniform(t: Table, tick: Tick, d: Diff)
    requires BatchesWellFormed(t.versions) && UniformSchema(t)
    ensures UniformSchema(ApplyDiff(t, tick, d).table)
  {
    if ApplyDiff(t, tick, d).error.None? {
      SelfAlike(t);
      DiffAlike(t, t, tick, d);
    } else {
      FailedDiffVersions(t, tick, d);
    }
    hide ApplyDiff, SameShape;
  }

  lemma SelfAlike(t: Table)
    requires BatchesWellFormed(t.versions) && UniformSchema(t)
    ensures Alike(t, t)
  {
    hide WellFormed;
  }

  lemma FailedDiffVersions(t: Table, tick: Tick, d: Diff)
    requires BatchesWellFormed(t.versions) && ApplyDiff(t, tick, d).error.Some?
    ensures ApplyDiff(t, tick, d).table.versions == t.versions && ApplyDiff(t, tick, d).table.spec == t.spec
  {
    hide LocateError, RowToBatch, ReplaceRows, UpdatePatch, NullPatch, PatchVersions, WellFormed;
  }

  lemma OneKeepsUniform(tables: TableMap, tick: Tick, d: Diff)
    requires TablesWellFormed(tables) && Uniform(tables)
    ensures Uniform(ApplyOne(tables, tick, d).tables)
  {
    if d.name in tables {
      DiffKeepsUniform(tables[d.name], tick, d);
    }
    hide ApplyDiff, UniformSchema, BatchesWellFormed;
  }

  lemma {:induction false} BatchKeepsUniform(tables: TableMap, tick: Tick, diffs: seq<Diff>)
    requires TablesWellFormed(tables) && Uniform(tables)
    ensures Uniform(ApplyEach(tables, tick, diffs).tables)
  {
    hide ApplyOne, TablesWellFormed, Uniform;
    if diffs != [] {
      BatchKeepsUniform(tables, tick, diffs[..|diffs| - 1]);
      OneKeepsUniform(ApplyEach(tables, tick, diffs[..|diffs| - 1]).tables, tick, diffs[|diffs| - 1]);
    }
  }

  lemma VersionsKeepUniform(a: TableMap, b: TableMap)
    requires Uniform(a) && SameVersions(a, b)
    ensures Uniform(b)
  {
  }

  lemma StepKeepsUniform(r: Run, digest: Digest, e: Event)
    requires TablesWellFormed(r.world.store.tables) && Uniform(r.world.store.tables)
    ensures Uniform(StepRun(r, digest, e).world.store.tables)
  {
    hide Commit, ApplyEach, BatchesWellFormed, Uniform, SameVersions;
    if e.TryCommit? {
      if Commit(r.world, digest, e.appendOk).1.Err? {
        FailedCommitIsAtomic(r.world, digest, e.appendOk);
        VersionsKeepUniform(r.world.store.tables, Commit(r.world, digest, e.appendOk).0.store.tables);
      } else {
        CommitSucceeds(r.world, digest, e.appendOk);
        BatchKeepsUniform(r.world.store.tables, r.world.journal.tick, r.world.journal.diffs);
      }
    }
  }

  /** Over any run every batch keeps its table's schema. */
  lemma {:induction false} RunKeepsUniform(start: Run, digest: Digest, events: seq<Event>)
    requires TablesWellFormed(start.world.store.tables) && Uniform(start.world.store.tables)
    ensures Uniform(RunFrom(start, digest, events).world.store.tables)
  {
    if events != [] {
      RunKeepsUniform(start, digest, events[..|events| - 1]);
      StepKeepsUniform(RunFrom(start, digest, events[..|events| - 1]), digest, events[|events| - 1]);
    }
    hide Uniform, StepRun;
  }

  // ---------------------------------------------------------------- waiting for a retry

  /** The pending batch applies, and yet its commit fails. */
  predicate Refused(w: World, digest: Digest, appendOk: bool)
    requires TablesWellFormed(w.store.tables)
  {
    && w.journal.phase == Open && w.store.simulation
    && ApplyEach(w.store.tables, w.journal.tick, w.journal.diffs).error.None?
    && Commit(w, digest, appendOk).1.Err?
  }

  predicate RetrySuits(w: World)
    requires TablesWellFormed(w.store.tables)
  {
    Reapplies(w.store.tables, w.journal.tick, w.journal.diffs)
  }

  /** A world that some failed commits of the first world's batch have led to. */
  ghost predicate Waiting(w: World, v: World)
    requires TablesWellFormed(w.store.tables)
  {
    var tables, tick, diffs := w.store.tables, w.journal.tick, w.journal.diffs;
    && v == w.(store := v.store) && v.store.simulation
    && SameVersions(tables, v.store.tables)
    && (RetrySuits(w) ==> SamePositions(v.store.tables, RolledBack(tables, tick, diffs)))
    && (!RetrySuits(w) ==> !AllSuit(tables, v.store.tables, tick, diffs, |diffs|))
  }

  lemma RefusedWaits(w: World, digest: Digest, appendOk: bool)
    requires TablesWellFormed(w.store.tables) && Refused(w, digest, appendOk)
    ensures Waiting(w, Commit(w, digest, appendOk).0)
  {
    var tables, tick, diffs := w.store.tables, w.journal.tick, w.journal.diffs;
    FailedCommitTables(w, digest, appendOk);
    SnapshotLeftFrame(w);
    RollbackRestoresVersions(tables, tick, diffs);
    OwnPositions(RolledBack(tables, tick, diffs));
    hide Commit, ApplyEach, RolledBack, SnapshotLeft, AllSuit, SameVersions, SamePositions, TablesWellFormed;
  }

  lemma OwnPositions(tables: TableMap)
    ensures SamePositions(tables, tables)
  {
  }

  lemma VersionsWellFormed(a: TableMap, b: TableMap)
    requires TablesWellFormed(a) && SameVersions(a, b)
    ensures TablesWellFormed(b) && b.Keys == a.Keys
  {
    hide BatchesWellFormed;
  }

  lemma WaitingApplies(w: World, v: World)
    requires TablesWellFormed(w.store.tables) && Uniform(w.store.tables) && Waiting(w, v)
    requires ApplyEach(w.store.tables, w.journal.tick, w.journal.diffs).error.None?
    ensures TablesWellFormed(v.store.tables) && v.store.tables.Keys == w.store.tables.Keys
    ensures ApplyEach(v.store.tables, w.journal.tick, w.journal.diffs).error.None? <==> RetrySuits(w)
  {
    var tables, tick, diffs := w.store.tables, w.journal.tick, w.journal.diffs;
    VersionsWellFormed(tables, v.store.tables);
    if RetrySuits(w) {
      SuitingStays(tables, v.store.tables, tick, diffs);
    } else {
      assert diffs[..|diffs|] == diffs;
      UnsuitedStays(tables, v.store.tables, tick, diffs, diffs);
    }
    hide ApplyEach, RolledBack, AllSuit, SameVersions, SamePositions, TablesWellFormed, Uniform, Reapplies;
  }

  lemma StillWaiting(w: World, v: World, digest: Digest, appendOk: bool)
    requires TablesWellFormed(w.store.tables) && Uniform(w.store.tables) && Waiting(w, v)
    requires ApplyEach(w.store.tables, w.journal.tick, w.journal.diffs).error.None? && w.journal.phase == Open
    requires TablesWellFormed(v.store.tables) && Commit(v, digest, appendOk).1.Err?
    ensures Waiting(w, Commit(v, digest, appendOk).0)
  {
    hide Commit, ApplyEach, RolledBack, SnapshotLeft, AllSuit;
    hide SameVersions, SamePositions, TablesWellFormed, Uniform, Reapplies;
    var tables, tick, diffs := w.store.tables, w.journal.tick, w.journal.diffs;
    FailedCommitTables(v, digest, appendOk);
    SnapshotLeftFrame(v);
    RollbackRestoresVersions(v.store.tables, tick, diffs);
    SameVersionsChain(tables, v.store.tables, RolledBack(v.store.tables, tick, diffs));
    if RetrySuits(w) {
      SuitingStays(tables, v.store.tables, tick, diffs);
    } else {
      assert diffs[..|diffs|] == diffs;
      UnsuitedStays(tables, v.store.tables, tick, diffs, diffs);
    }
  }

  lemma SameVersionsChain(a: TableMap, b: TableMap, c: TableMap)
    requires SameVersions(a, b) && SameVersions(b, c)
    ensures SameVersions(a, c)
  {
  }

  // ---------------------------------------------------------------- every retry

  /** The world after some attempts to commit. */
  function Retried(w: World, digest: Digest, answers: seq<bool>): (v: World)
    requires TablesWellFormed(w.store.tables)
    ensures TablesWellFormed(v.store.tables)
  {
    if answers == [] then w
    else Commit(Retried(w, digest, answers[..|answers| - 1]), digest, answers[|answers| - 1]).0
  }

  predicate AllFail(w: World, digest: Digest, answers: seq<bool>)
    requires TablesWellFormed(w.store.tables)
  {
    answers == [] ||
    (AllFail(w, digest, answers[..|answers| - 1]) &&
     Commit(Retried(w, digest, answers[..|answers| - 1]), digest, answers[|answers| - 1]).1.Err?)
  }

  lemma {:induction false} RetriedWaits(w: World, digest: Digest, answers: seq<bool>)
    requires TablesWellFormed(w.store.tables) && Uniform(w.store.tables)
    requires answers != [] && Refused(w, digest, answers[0]) && AllFail(w, digest, answers)
    ensures Waiting(w, Retried(w, digest, answers))
  {
    var before, last := answers[..|answers| - 1], answers[|answers| - 1];
    if before == [] {
      RefusedWaits(w, digest, last);
    } else {
      RetriedWaits(w, digest, before);
      StillWaiting(w, Retried(w, digest, before), digest, last);
    }
    hide Commit, ApplyEach, Waiting, Uniform, TablesWellFormed;
  }

  /** After a commit has failed although its batch applied, and after any number of further failures, a retry succeeds
      exactly if the batch suits the positions its first application left, it can be hashed and published, and the save
      journal takes the record. */
  lemma RetrySucceedsIff(w: World, digest: Digest, answers: seq<bool>, appendOk: bool)
    requires TablesWellFormed(w.store.tables) && Uniform(w.store.tables)
    requires answers != [] && Refused(w, digest, answers[0]) && AllFail(w, digest, answers)
    ensures Commit(Retried(w, digest, answers), digest, appendOk).1.Ok? <==>
      (RetrySuits(w) && StateHash(digest, w.journal.diffs).Some? && CanPublish(w.engine, w.store.tables) &&
       (w.saving ==> appendOk))
  {
    var v := Retried(w, digest, answers);
    RetriedWaits(w, digest, answers);
    WaitingApplies(w, v);
    CommitFailsIff(v, digest, appendOk);
    hide Commit, ApplyEach, StateHash, RetrySuits, Retried;
    hide AllFail, SameVersions, SamePositions, Uniform, TablesWellFormed, AllSuit, RolledBack;
  }

  // ---------------------------------------------------------------- stuck for ever

  /** Some diff of the first world's batch, which is still the front of the pending one, does not suit. */
  ghost predicate Stuck(w: World, v: World)
    requires TablesWellFormed(w.store.tables)
  {
    var n := |w.journal.diffs|;
    && v.journal.tick == w.journal.tick
    && n <= |v.journal.diffs| && v.journal.diffs[..n] == w.journal.diffs
    && SameVersions(w.store.tables, v.store.tables)
    && !AllSuit(w.store.tables, v.store.tables, w.journal.tick, w.journal.diffs, n)
  }

  lemma StuckFails(w: World, v: World, digest: Digest, appendOk: bool)
    requires TablesWellFormed(w.store.tables) && Uniform(w.store.tables) && Stuck(w, v)
    requires ApplyEach(w.store.tables, w.journal.tick, w.journal.diffs).error.None?
    requires TablesWellFormed(v.store.tables)
    ensures Commit(v, digest, appendOk).1.Err? && Stuck(w, Commit(v, digest, appendOk).0)
  {
    var tables, tick, diffs := w.store.tables, w.journal.tick, w.journal.diffs;
    UnsuitedStays(tables, v.store.tables, tick, diffs, v.journal.diffs);
    CommitFailsIff(v, digest, appendOk);
    FailedCommitTables(v, digest, appendOk);
    RollbackRestoresVersions(v.store.tables, tick, v.journal.diffs);
    SameVersionsChain(tables, v.store.tables, RolledBack(v.store.tables, tick, v.journal.diffs));
    hide Commit, ApplyEach, RolledBack, SnapshotLeft, AllSuit, SameVersions, TablesWellFormed, Uniform;
  }

  lemma {:induction false} StuckRun(w: World, r: Run, digest: Digest, events: seq<Event>)
    requires TablesWellFormed(w.store.tables) && Uniform(w.store.tables) && Stuck(w, r.world)
    requires ApplyEach(w.store.tables, w.journal.tick, w.journal.diffs).error.None?
    requires TablesWellFormed(r.world.store.tables)
    ensures RunFrom(r, digest, events).log == r.log && Stuck(w, RunFrom(r, digest, events).world)
  {
    if events != [] {
      StuckRun(w, r, digest, events[..|events| - 1]);
      StuckStep(w, RunFrom(r, digest, events[..|events| - 1]), digest, events[|events| - 1]);
    }
    hide StepRun, Stuck, Uniform, ApplyEach, TablesWellFormed;
  }

  lemma StuckStep(w: World, r: Run, digest: Digest, e: Event)
    requires TablesWellFormed(w.store.tables) && Uniform(w.store.tables) && Stuck(w, r.world)
    requires ApplyEach(w.store.tables, w.journal.tick, w.journal.diffs).error.None?
    requires TablesWellFormed(r.world.store.tables)
    ensures StepRun(r, digest, e).log == r.log && Stuck(w, StepRun(r, digest, e).world)
  {
    hide AllSuit, SameVersions, Commit, ApplyEach, TablesWellFormed, Uniform;
    match e
    case SubmitDiff(d) =>
      assert (r.world.journal.diffs + [d])[..|w.journal.diffs|] == r.world.journal.diffs[..|w.journal.diffs|];
    case SubmitCommand(_) =>
    case TryCommit(appendOk) =>
      StuckFails(w, r.world, digest, appendOk);
  }

  /** If the batch does not suit the positions its first application left, no commit succeeds ever after, however
      often it is retried and whatever is submitted besides. */
  lemma UnsuitedCommitIsStuck(r: Run, digest: Digest, appendOk: bool, events: seq<Event>)
    requires TablesWellFormed(r.world.store.tables) && Uniform(r.world.store.tables)
    requires Refused(r.world, digest, appendOk) && !RetrySuits(r.world)
    ensures RunFrom(StepRun(r, digest, TryCommit(appendOk)), digest, events).log == r.log
  {
    var failed := StepRun(r, digest, TryCommit(appendOk));
    RefusedWaits(r.world, digest, appendOk);
    FailedStep(r, digest, appendOk);
    assert r.world.journal.diffs[..|r.world.journal.diffs|] == r.world.journal.diffs;
    hide Commit, ApplyEach, AllSuit, SameVersions, SamePositions, RetrySuits, RunFrom, StepRun;
    StuckRun(r.world, failed, digest, events);
  }

  /** An unbalanced batch does not suit. */
  lemma UnbalancedDoesNotSuit(w: World, name: string, row: RowId)
    requires TablesWellFormed(w.store.tables) && Uniform(w.store.tables)
    requires ApplyEach(w.store.tables, w.journal.tick, w.journal.diffs).error.None?
    requires name in w.store.tables && Unbalanced(w.store.tables[name].spec, w.journal.diffs, name, row)
    ensures !RetrySuits(w)
  {
    UnbalancedRetryFails(w.store.tables, w.journal.tick, w.journal.diffs, name, row, w.journal.tick);
    RetryAppliesIff(w.store.tables, w.journal.tick, w.journal.diffs);
    hide ApplyEach, RolledBack, Unbalanced, Reapplies, Uniform, TablesWellFormed;
  }
}
