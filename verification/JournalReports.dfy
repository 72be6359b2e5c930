/** What a commit reports and publishes: its result, its record, its hash, its errors, and what reads answer after
    it. */
module JournalReports {
  import opened Machine
  import opened KeyIndexes
  import opened Batches
  import opened Tables
  import opened Stores
  import opened StoreRollback
  import opened ReadViews
  import opened QueryEngines
  import opened Journals
  import opened JournalRuns

  // ---------------------------------------------------------------- the hash of a commit

  /** The integer sum of the diffs' hashes, modulo the machine word. */
  predicate IsHashOf(digest: Digest, diffs: seq<Diff>, hash: u64) {
    AllHashed(digest, diffs) && hash == Sum(Digests(digest, diffs)) % (U64_MAX + 1)
  }

  /** A successful commit returns and records its tick, its diffs, its commands and the sum of its diffs' hashes. */
  lemma CommitReports(w: World, digest: Digest, appendOk: bool)
    requires TablesWellFormed(w.store.tables) && Commit(w, digest, appendOk).1.Ok?
    ensures var (after, result) := Commit(w, digest, appendOk);
      var j, hash := w.journal, result.value.stateHash;
      && IsHashOf(digest, j.diffs, hash)
      && result == Ok(CommitResult(j.tick, |j.diffs|, |j.commands|, hash))
      && after.journal.history != []
      && after.journal.history[|after.journal.history| - 1] == CommitRecord(j.tick, j.diffs, j.commands, hash)
  {
    StateHashIsSum(digest, w.journal.diffs);
    CommitSucceeds(w, digest, appendOk);
    CommitFailsIff(w, digest, appendOk);
    hide ApplyEach, StateHash, Digests, CanPublish, BatchesWellFormed, AfterPublish;
  }

  /** Every record carries the hash of its diffs. */
  predicate HashesLogged(log: seq<CommitRecord>, digest: Digest) {
    forall i :: 0 <= i < |log| ==> IsHashOf(digest, log[i].diffs, log[i].stateHash)
  }

  function LoggedHashes(log: seq<CommitRecord>): seq<int> {
    seq(|log|, (i: nat) requires i < |log| => log[i].stateHash)
  }

  lemma StepKeepsHashes(r: Run, digest: Digest, e: Event)
    requires TablesWellFormed(r.world.store.tables) && HashesLogged(r.log, digest)
    ensures HashesLogged(StepRun(r, digest, e).log, digest)
  {
    hide Commit, IsHashOf, BatchesWellFormed;
    if e.TryCommit? && Commit(r.world, digest, e.appendOk).1.Ok? {
      CommitReports(r.world, digest, e.appendOk);
    }
  }

  /** Over any run every record carries the hash of its diffs, and the records' hashes add up to the hash of all
      committed diffs. */
  lemma {:induction false} RunKeepsHashes(start: Run, digest: Digest, events: seq<Event>)
    requires TablesWellFormed(start.world.store.tables) && HashesLogged(start.log, digest)
    ensures var log := RunFrom(start, digest, events).log;
      && HashesLogged(log, digest)
      && IsHashOf(digest, LoggedDiffs(log), Sum(LoggedHashes(log)) % (U64_MAX + 1))
  {
    if events != [] {
      RunKeepsHashes(start, digest, events[..|events| - 1]);
      StepKeepsHashes(RunFrom(start, digest, events[..|events| - 1]), digest, events[|events| - 1]);
    }
    HashesAddUp(RunFrom(start, digest, events).log, digest);
    hide HashesLogged, StepRun, IsHashOf;
  }

  lemma {:induction false} HashesAddUp(log: seq<CommitRecord>, digest: Digest)
    requires HashesLogged(log, digest)
    ensures IsHashOf(digest, LoggedDiffs(log), Sum(LoggedHashes(log)) % (U64_MAX + 1))
  {
    if log == [] {
      assert Digests(digest, []) == [];
    } else {
      var init, last := log[..|log| - 1], log[|log| - 1];
      HashesAddUp(init, digest);
      assert LoggedHashes(log) == LoggedHashes(init) + [last.stateHash as int];
      SumOfLast(LoggedHashes(init), last.stateHash);
      JoinedHash(digest, LoggedDiffs(init), last.diffs, Sum(LoggedHashes(init)), last.stateHash);
    }
  }

  lemma JoinedHash(digest: Digest, xs: seq<Diff>, ys: seq<Diff>, total: int, hash: u64)
    requires IsHashOf(digest, xs, total % (U64_MAX + 1)) && IsHashOf(digest, ys, hash)
    ensures IsHashOf(digest, xs + ys, (total + hash) % (U64_MAX + 1))
  {
    assert Digests(digest, xs + ys) == Digests(digest, xs) + Digests(digest, ys);
    SumOfBoth(Digests(digest, xs), Digests(digest, ys));
    WrappedSums(total, Sum(Digests(digest, xs)), hash, Sum(Digests(digest, ys)));
    hide Digests, Sum;
  }

  /** Sums modulo the machine word depend on the summands modulo it. */
  lemma WrappedSums(x: int, x': int, y: int, y': int)
    requires x % (U64_MAX + 1) == x' % (U64_MAX + 1) && y % (U64_MAX + 1) == y' % (U64_MAX + 1)
    ensures (x + y) % (U64_MAX + 1) == (x' + y') % (U64_MAX + 1)
  {
  }

  lemma {:induction false} SumOfBoth(xs: seq<int>, ys: seq<int>)
    ensures Sum(xs + ys) == Sum(xs) + Sum(ys)
  {
    if xs == [] {
      assert xs + ys == ys;
    } else {
      assert (xs + ys)[1..] == xs[1..] + ys;
      SumOfBoth(xs[1..], ys);
    }
  }

  /** Over any run the history holds the newest 1024 records, all of them if there are fewer, and the open tick is the
      number of records, up to the last tick before the sentinel. */
  lemma HistoryAndTick(store: StoreState, engine: Option<EngineState>, saving: bool, digest: Digest, events: seq<Event>)
    requires TablesWellFormed(store.tables)
    ensures var r := RunFrom(Start(store, engine, saving), digest, events);
      && r.world.journal.history == r.log[if |r.log| > 1024 then |r.log| - 1024 else 0..]
      && r.world.journal.tick == if |r.log| < 18446744073709551614 then |r.log| else 18446744073709551614
  {
    RunKeepsAccounts(store, engine, saving, digest, events);
    hide RunFrom, LoggedDiffs, LoggedCommands;
  }

  // ---------------------------------------------------------------- the errors of a commit

  /** Why a commit fails: of the conditions that do not hold, the first in the order of its steps. */
  lemma CommitErrors(w: World, digest: Digest, appendOk: bool)
    requires TablesWellFormed(w.store.tables)
    ensures var r := Commit(w, digest, appendOk).1;
      var j := w.journal;
      var failed := ApplyEach(w.store.tables, j.tick, j.diffs).error;
      var isOpen := j.phase == Open;
      var applied := isOpen && w.store.simulation && failed.None?;
      var hashed := applied && AllHashed(digest, j.diffs);
      var published := hashed && CanPublish(w.engine, w.store.tables);
      && (r == Err(NotOpen) <==> !isOpen)
      && (r == Err(StoreFailed(LifecycleError)) <==> isOpen && !w.store.simulation)
      && (forall e :: e != LifecycleError ==>
            (r == Err(StoreFailed(e)) <==> isOpen && w.store.simulation && failed == Some(e)))
      && (r == Err(EncodeFailed) <==> applied && !AllHashed(digest, j.diffs))
      && (r == Err(IngestFailed) <==> hashed && !CanPublish(w.engine, w.store.tables))
      && (r == Err(AppendFailed) <==> published && w.saving && !appendOk)
      && (r.Ok? <==> published && (w.saving ==> appendOk))
  {
    StateHashIsSum(digest, w.journal.diffs);
    BatchErrors(w.store.tables, w.journal.tick, w.journal.diffs);
    hide ApplyEach, StateHash, Digests, AllHashed, CanPublish, BatchesWellFormed;
  }

  /** A diff never fails for the store's life cycle. */
  lemma {:induction false} BatchErrors(tables: TableMap, tick: Tick, diffs: seq<Diff>)
    requires TablesWellFormed(tables)
    ensures ApplyEach(tables, tick, diffs).error != Some(LifecycleError)
  {
    if diffs != [] {
      BatchErrors(tables, tick, diffs[..|diffs| - 1]);
      OneError(ApplyEach(tables, tick, diffs[..|diffs| - 1]).tables, tick, diffs[|diffs| - 1]);
    }
    hide ApplyOne, TablesWellFormed;
  }

  lemma OneError(tables: TableMap, tick: Tick, d: Diff)
    requires TablesWellFormed(tables)
    ensures ApplyOne(tables, tick, d).error != Some(LifecycleError)
  {
    if d.name in tables && d.ReplaceTable? {
      ReplaceErrors(tables[d.name].spec, d.rows, |d.rows|);
    }
    hide ReplaceRows, UpdatePatch, NullPatch, PatchVersions, RowToBatch, WellFormed;
  }

  lemma {:induction false} ReplaceErrors(spec: TableSpec, rows: seq<JsonRow>, n: nat)
    requires n <= |rows|
    ensures ReplaceRows(spec, rows, n).error != Some(LifecycleError)
  {
    if n > 0 {
      ReplaceErrors(spec, rows, n - 1);
    }
    hide RowToBatch, ReplaceId;
  }

  /** The diffs before the k-th apply and the k-th fails, for want of its table or in it. */
  ghost predicate FirstFailure(tables: TableMap, tick: Tick, diffs: seq<Diff>, k: int, e: StoreError)
    requires TablesWellFormed(tables)
  {
    && 0 <= k < |diffs| && ApplyEach(tables, tick, diffs[..k]).error.None?
    && FailsOn(ApplyEach(tables, tick, diffs[..k]).tables, tick, diffs[k], e)
  }

  ghost predicate FailsOn(tables: TableMap, tick: Tick, d: Diff, e: StoreError)
    requires TablesWellFormed(tables)
  {
    if d.name in tables then ApplyDiff(tables[d.name], tick, d).error == Some(e) else e == TableNotFound(d.name)
  }

  /** A batch stops at the first diff that fails, with that diff's error, and leaves the tables as the diffs before
      it and the failing one have made them. */
  lemma {:induction false} BatchErrorIff(tables: TableMap, tick: Tick, diffs: seq<Diff>)
    requires TablesWellFormed(tables)
    ensures var o := ApplyEach(tables, tick, diffs);
      && (forall e :: o.error == Some(e) <==> exists k :: FirstFailure(tables, tick, diffs, k, e))
      && (forall k, e :: FirstFailure(tables, tick, diffs, k, e) ==>
            o.tables == ApplyOne(ApplyEach(tables, tick, diffs[..k]).tables, tick, diffs[k]).tables)
  {
    hide ApplyOne, FailsOn, TablesWellFormed;
    if diffs != [] {
      var n := |diffs| - 1;
      var init := diffs[..n];
      BatchErrorIff(tables, tick, init);
      forall k, e | 0 <= k < n
        ensures FirstFailure(tables, tick, diffs, k, e) <==> FirstFailure(tables, tick, init, k, e)
      {
        assert init[..k] == diffs[..k];
      }
      var before := ApplyEach(tables, tick, init);
      if before.error.None? {
        OneFails(before.tables, tick, diffs[n]);
        forall e ensures FirstFailure(tables, tick, diffs, n, e) <==> FailsOn(before.tables, tick, diffs[n], e) {
        }
      }
      forall k, e | FirstFailure(tables, tick, diffs, k, e)
        ensures ApplyEach(tables, tick, diffs).tables ==
          ApplyOne(ApplyEach(tables, tick, diffs[..k]).tables, tick, diffs[k]).tables
      {
        if k < n {
          assert FirstFailure(tables, tick, init, k, e) && init[..k] == diffs[..k] && init[k] == diffs[k];
          assert before.error == Some(e);
        }
      }
      hide ApplyEach;
    }
  }

  lemma OneFails(tables: TableMap, tick: Tick, d: Diff)
    requires TablesWellFormed(tables)
    ensures forall e :: FailsOn(tables, tick, d, e) <==> ApplyOne(tables, tick, d).error == Some(e)
  {
    hide ApplyDiff, BatchesWellFormed;
  }

  // ---------------------------------------------------------------- the generation counter

  /** The commit attempt gets as far as the snapshot. */
  predicate TakesSnapshot(w: World)
    requires TablesWellFormed(w.store.tables)
  {
    && w.journal.phase == Open && w.store.simulation
    && ApplyEach(w.store.tables, w.journal.tick, w.journal.diffs).error.None?
  }

  /** The number of snapshots a run takes, those of failed commits included. */
  function SnapshotsTaken(start: Run, digest: Digest, events: seq<Event>): nat
    requires TablesWellFormed(start.world.store.tables)
  {
    if events == [] then 0
    else
      var before := events[..|events| - 1];
      SnapshotsTaken(start, digest, before) +
      if events[|events| - 1].TryCommit? && TakesSnapshot(RunFrom(start, digest, before).world) then 1 else 0
  }

  lemma StepCounts(w: World, digest: Digest, appendOk: bool)
    requires TablesWellFormed(w.store.tables)
    ensures Commit(w, digest, appendOk).0.store.generation ==
      if TakesSnapshot(w) then (w.store.generation + 1) % (U64_MAX + 1) else w.store.generation
  {
    hide Commit, ApplyEach, RolledBack, StateHash, CanPublish, TablesWellFormed;
    CommitFailsIff(w, digest, appendOk);
    if Commit(w, digest, appendOk).1.Err? {
      FailedCommitTables(w, digest, appendOk);
    } else {
      SuccessCounts(w, digest, appendOk);
    }
  }

  lemma SuccessCounts(w: World, digest: Digest, appendOk: bool)
    requires TablesWellFormed(w.store.tables) && Commit(w, digest, appendOk).1.Ok?
    ensures Commit(w, digest, appendOk).0.store.generation == (w.store.generation + 1) % (U64_MAX + 1)
  {
    hide ApplyEach, StateHash, CanPublish, BatchesWellFormed, Bounded, AfterPublish;
  }

  lemma EventCounts(r: Run, digest: Digest, e: Event)
    requires TablesWellFormed(r.world.store.tables)
    ensures StepRun(r, digest, e).world.store.generation ==
      if e.TryCommit? && TakesSnapshot(r.world) then (r.world.store.generation + 1) % (U64_MAX + 1)
      else r.world.store.generation
  {
    hide Commit, TakesSnapshot, BatchesWellFormed;
    if e.TryCommit? {
      StepCounts(r.world, digest, e.appendOk);
    }
  }

  /** Over any run the store's generation counts the snapshots taken, modulo the machine word. */
  lemma {:induction false} RunCountsSnapshots(start: Run, digest: Digest, events: seq<Event>)
    requires TablesWellFormed(start.world.store.tables)
    ensures RunFrom(start, digest, events).world.store.generation ==
      (start.world.store.generation + SnapshotsTaken(start, digest, events)) % (U64_MAX + 1)
  {
    hide StepRun, TakesSnapshot, TablesWellFormed;
    if events != [] {
      var init := events[..|events| - 1];
      RunCountsSnapshots(start, digest, init);
      EventCounts(RunFrom(start, digest, init), digest, events[|events| - 1]);
      CountsOne(start.world.store.generation + SnapshotsTaken(start, digest, init));
    } else {
      WordStays(start.world.store.generation);
    }
  }

  lemma CountsOne(x: int)
    ensures (x % (U64_MAX + 1) + 1) % (U64_MAX + 1) == (x + 1) % (U64_MAX + 1)
  {
  }

  lemma WordStays(x: u64)
    ensures x % (U64_MAX + 1) == x
  {
  }

  // ---------------------------------------------------------------- reads over runs

  lemma {:induction false} RunKeepsEngineAttached(start: Run, digest: Digest, events: seq<Event>)
    requires TablesWellFormed(start.world.store.tables)
    ensures RunFrom(start, digest, events).world.engine.Some? <==> start.world.engine.Some?
  {
    if events != [] {
      var before, e := RunFrom(start, digest, events[..|events| - 1]), events[|events| - 1];
      RunKeepsEngineAttached(start, digest, events[..|events| - 1]);
      hide Commit, BatchesWellFormed;
      if e.TryCommit? {
        if Commit(before.world, digest, e.appendOk).1.Err? {
          FailedCommitIsAtomic(before.world, digest, e.appendOk);
        } else {
          CommitSucceeds(before.world, digest, e.appendOk);
        }
      }
    }
  }

  /** A read of some tables at a tick answers with all of them, each with exactly the rows located in the tick. */
  ghost predicate AnswersRows(e: EngineState, shown: TableMap, tick: Tick, names: seq<string>) {
    && ReadTables(e, tick, names).Ok?
    && ReadTables(e, tick, names).value.Keys == (set n | n in names)
    && forall n :: n in names ==> n in shown && ViewAnswers(ReadTables(e, tick, names).value[n], shown[n], tick)
  }

  ghost predicate ViewAnswers(view: View, t: Table, tick: Tick) {
    && view.tick == tick && BatchesWellFormed(t.versions) && AllWellFormed(view.batches)
    && forall row :: ReadRow(view.batches, view.positions, row) == RowOfTick(t, tick, row)
  }

  lemma ViewOfTickAnswers(tables: TableMap, tick: Tick, name: string)
    requires TablesWellFormed(tables) && TicksUpTo(tables, tick) && name in tables
    ensures ViewAnswers(ViewAt(tables, tick, name), tables[name], tick)
  {
    var t := tables[name];
    var view := ViewAt(tables, tick, name);
    forall row ensures AllWellFormed(view.batches) &&
      ReadRow(view.batches, view.positions, row) == RowOfTick(t, tick, row)
    {
      ViewReadsOriginal(name, tick, BatchesAt(t.versions, tick), t.positions, row);
      TicksNotLater(t, tick, row);
      ViewShowsRowsOfTick(t, name, tick, row);
      hide ReadRow, AbsRows, LocTick, MergedBatches, Merges, WellFormed, NotLater;
    }
    hide ReadRow, RowOfTick, MergedBatches, Merges, WellFormed;
  }

  lemma ShownTablesAnswer(e: EngineState, shown: TableMap, tick: Tick, names: seq<string>)
    requires TablesWellFormed(shown) && TicksUpTo(shown, tick) && forall n :: n in names ==> n in shown
    requires e.cache == ViewsAt(shown, tick) && e.latestTick == tick && tick != NO_TICK
    ensures AnswersRows(e, shown, tick, names)
    ensures forall t: Tick :: t != 0 && t != tick ==> ReadTables(e, t, names) == Err(TicksMismatch(t, Some(tick)))
  {
    hide ReadTables, ViewAnswers, TicksUpTo, TablesWellFormed;
    assert Named(e.cache);
    hide ViewAt;
    ReadIff(e, tick, names);
    forall t: Tick | t != 0 && t != tick ensures ReadTables(e, t, names) == Err(TicksMismatch(t, Some(tick))) {
      ReadIff(e, t, names);
    }
    forall n | n in names ensures ViewAnswers(e.cache[n], shown[n], tick) {
      ViewOfTickAnswers(shown, tick, n);
    }
  }

  /** In every run, right after a successful commit, reading any of the store's tables at the committed tick
      succeeds and yields exactly its rows located in that tick; reading at any other tick but zero is refused. */
  lemma CommittedTablesAreRead(start: Run, digest: Digest, events: seq<Event>, appendOk: bool, names: seq<string>)
    requires TablesWellFormed(start.world.store.tables) && TicksKept(start)
    requires var w := RunFrom(start, digest, events).world;
      Commit(w, digest, appendOk).1.Ok? && w.engine.Some? && forall n :: n in names ==> n in w.store.tables
    ensures var w := RunFrom(start, digest, events).world;
      var after := Commit(w, digest, appendOk).0;
      && after.engine.Some? && AnswersRows(after.engine.value, after.store.tables, w.journal.tick, names)
      && forall t: Tick :: t != 0 && t != w.journal.tick ==>
           ReadTables(after.engine.value, t, names) == Err(TicksMismatch(t, Some(w.journal.tick)))
  {
    RunKeepsTicks(start, digest, events);
    var w := RunFrom(start, digest, events).world;
    hide RunFrom, Commit, ApplyEach, AnswersRows, ReadTables, TicksUpTo, TablesWellFormed;
    CommitSucceeds(w, digest, appendOk);
    BatchTicks(w.store.tables, w.journal.tick, w.journal.diffs);
    var after := Commit(w, digest, appendOk).0;
    ShownTablesAnswer(after.engine.value, after.store.tables, w.journal.tick, names);
  }

  /** At every moment of every run that has committed, reading any of the store's tables at the last committed tick
      succeeds and yields exactly the rows of the last commit located in that tick. */
  lemma RunReads(store: StoreState, schemas: set<string>, saving: bool, digest: Digest, events: seq<Event>,
                 names: seq<string>)
    requires TablesWellFormed(store.tables) && TicksUpTo(store.tables, 0)
    requires
      var r := RunFrom(Start(store, Some(EngineState(schemas, map[], NO_TICK, None, None)), saving), digest, events);
      r.log != [] && forall n :: n in names ==> n in r.world.store.tables
    ensures
      var r := RunFrom(Start(store, Some(EngineState(schemas, map[], NO_TICK, None, None)), saving), digest, events);
      var tick := r.log[|r.log| - 1].tick;
      && r.world.engine.Some? && r.world.engine.value.latestSnapshot.Some?
      && AnswersRows(r.world.engine.value, r.world.engine.value.latestSnapshot.value.tables, tick, names)
      && forall t: Tick :: t != 0 && t != tick ==>
           ReadTables(r.world.engine.value, t, names) == Err(TicksMismatch(t, Some(tick)))
  {
    var start := Start(store, Some(EngineState(schemas, map[], NO_TICK, None, None)), saving);
    RunKeepsEngine(store, schemas, saving, digest, events);
    RunKeepsEngineAttached(start, digest, events);
    RunKeepsTicks(start, digest, events);
    var r := RunFrom(start, digest, events);
    hide RunFrom, AnswersRows, ReadTables, TicksUpTo, TablesWellFormed;
    var e := r.world.engine.value;
    assert Shows(e, r.world.store.tables);
    ShownTicks(e, r.world.store.tables);
    LoggedTick(r);
    ShownTablesAnswer(e, e.latestSnapshot.value.tables, e.latestTick, names);
  }

  lemma ShownTicks(e: EngineState, tables: TableMap)
    requires Shows(e, tables) && TicksUpTo(tables, e.latestTick)
    ensures TicksUpTo(e.latestSnapshot.value.tables, e.latestTick)
    ensures e.latestSnapshot.value.tables.Keys == tables.Keys
  {
    hide ViewAt, BatchesWellFormed;
  }

  lemma LoggedTick(r: Run)
    requires Accounted(r) && r.log != []
    ensures r.log[|r.log| - 1].tick != NO_TICK
  {
  }
}
