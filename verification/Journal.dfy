/** The journal: submissions collected for the open tick, and the commit that applies, publishes and records them. */
module Journals {
  import opened Machine
  import opened Batches
  import opened KeyIndexes
  import opened Tables
  import opened VersionedTables
  import opened Stores
  import opened StoreRollback
  import opened ReadViews
  import opened QueryEngines

  const TICK_MAX: Tick := U64_MAX - 1
  const MAX_COMMIT_HISTORY: nat := 1024

  datatype Phase = Open | Committing | Committed

  datatype Envelope = Envelope(tick: Tick, source: string, command: string)

  datatype CommitRecord = CommitRecord(tick: Tick, diffs: seq<Diff>, commands: seq<Envelope>, stateHash: u64)

  datatype CommitResult = CommitResult(tick: Tick, diffCount: nat, commandCount: nat, stateHash: u64)

  datatype JournalError =
    | NotOpen
    | InvalidTick(expected: Tick, got: Tick)
    | StoreFailed(cause: StoreError)
    | EncodeFailed
    | IngestFailed
    | AppendFailed

  datatype JournalState = JournalState(
    tick: Tick, phase: Phase, commands: seq<Envelope>, diffs: seq<Diff>, history: seq<CommitRecord>)

  /** A diff's hash, or None where it cannot be encoded. */
  type Digest = Diff -> Option<u64>

  /** The journal with everything its commit touches. saving says whether a save journal is attached. */
  datatype World = World(journal: JournalState, store: StoreState, engine: Option<EngineState>, saving: bool)

  function NextTick(t: Tick): Tick {
    if t >= TICK_MAX then TICK_MAX else t + 1
  }

  // ---------------------------------------------------------------- the state hash

  function WrappingAdd(x: u64, y: u64): u64 {
    if x + y > U64_MAX then x + y - (U64_MAX + 1) else x + y
  }

  /** The wrapping sum of the diffs' hashes. */
  function StateHash(digest: Digest, diffs: seq<Diff>): Option<u64> {
    if diffs == [] then Some(0)
    else
      match (StateHash(digest, diffs[..|diffs| - 1]), digest(diffs[|diffs| - 1]))
      case (Some(h), Some(d)) => Some(WrappingAdd(h, d))
      case _ => None
  }

  predicate AllHashed(digest: Digest, diffs: seq<Diff>) {
    forall d :: d in diffs ==> digest(d).Some?
  }

  /** The diffs' hashes, in order. */
  function Digests(digest: Digest, diffs: seq<Diff>): seq<int>
    requires AllHashed(digest, diffs)
  {
    seq(|diffs|, (i: nat) requires i < |diffs| => digest(diffs[i]).value)
  }

  /** The state hash is there exactly if every diff has one, and is their integer sum modulo the machine word. */
  lemma {:induction false} StateHashIsSum(digest: Digest, diffs: seq<Diff>)
    ensures StateHash(digest, diffs).Some? <==> AllHashed(digest, diffs)
    ensures AllHashed(digest, diffs) ==>
      StateHash(digest, diffs) == Some(Sum(Digests(digest, diffs)) % (U64_MAX + 1))
  {
    if diffs != [] {
      var init, last := diffs[..|diffs| - 1], diffs[|diffs| - 1];
      assert diffs == init + [last];
      StateHashIsSum(digest, init);
      if AllHashed(digest, diffs) {
        assert Digests(digest, diffs) == Digests(digest, init) + [digest(last).value];
        SumOfLast(Digests(digest, init), digest(last).value);
        WrappedSum(Sum(Digests(digest, init)), digest(last).value);
        hide Digests, Sum, WrappingAdd;
      }
    }
  }

  lemma WrappedSum(total: int, d: u64)
    ensures WrappingAdd(total % (U64_MAX + 1), d) == (total + d) % (U64_MAX + 1)
  {
  }

  /** Hashing two batches and adding is hashing them joined: replay may chain batch hashes. */
  lemma {:induction false} StateHashJoins(digest: Digest, xs: seq<Diff>, ys: seq<Diff>)
    ensures StateHash(digest, xs + ys) ==
      match (StateHash(digest, xs), StateHash(digest, ys))
      case (Some(a), Some(b)) => Some(WrappingAdd(a, b))
      case _ => None
  {
    if ys == [] {
      assert xs + ys == xs;
    } else {
      StateHashJoins(digest, xs, ys[..|ys| - 1]);
      assert (xs + ys)[..|xs + ys| - 1] == xs + ys[..|ys| - 1];
    }
  }

  /** The wrapping sum of two hashes that may be missing. */
  function HashSum(a: Option<u64>, b: Option<u64>): Option<u64> {
    if a.Some? && b.Some? then Some(WrappingAdd(a.value, b.value)) else None
  }

  lemma HashSums(a: Option<u64>, b: Option<u64>, c: Option<u64>)
    ensures HashSum(HashSum(a, b), c) == HashSum(HashSum(a, c), b)
  {
  }

  lemma HashOfThree(digest: Digest, xs: seq<Diff>, ys: seq<Diff>, zs: seq<Diff>)
    ensures StateHash(digest, xs + ys + zs) ==
      HashSum(HashSum(StateHash(digest, xs), StateHash(digest, ys)), StateHash(digest, zs))
  {
    StateHashJoins(digest, xs + ys, zs);
    StateHashJoins(digest, xs, ys);
    hide StateHash, WrappingAdd;
  }

  /** A diff may move to the end. */
  lemma StateHashMovesLast(digest: Digest, before: seq<Diff>, x: Diff, after: seq<Diff>)
    ensures StateHash(digest, before + [x] + after) == StateHash(digest, before + after + [x])
  {
    hide *;
    HashOfThree(digest, before, [x], after);
    HashOfThree(digest, before, after, [x]);
    HashSums(StateHash(digest, before), StateHash(digest, [x]), StateHash(digest, after));
  }

  /** Where the last of some diffs stands among the same diffs in another order. */
  lemma LastElsewhere(xs: seq<Diff>, ys: seq<Diff>) returns (i: nat)
    requires multiset(xs) == multiset(ys) && xs != []
    ensures i < |ys| && ys == ys[..i] + [xs[|xs| - 1]] + ys[i + 1..]
    ensures multiset(xs[..|xs| - 1]) == multiset(ys[..i] + ys[i + 1..])
  {
    var n := |xs| - 1;
    WithoutOne(xs, n);
    assert xs[..n] + xs[n + 1..] == xs[..n];
    assert xs[n] in multiset(ys);
    i :| 0 <= i < |ys| && ys[i] == xs[n];
    WithoutOne(ys, i);
  }

  /** The state hash does not see the order of the diffs. */
  lemma {:induction false} StateHashIgnoresOrder(digest: Digest, xs: seq<Diff>, ys: seq<Diff>)
    requires multiset(xs) == multiset(ys)
    ensures StateHash(digest, xs) == StateHash(digest, ys)
    decreases |xs|
  {
    hide *;
    if xs == [] {
      assert |multiset(ys)| == 0;
    } else {
      var i := LastElsewhere(xs, ys);
      var init, x := xs[..|xs| - 1], xs[|xs| - 1];
      assert xs == init + [x];
      StateHashMovesLast(digest, ys[..i], x, ys[i + 1..]);
      StateHashIgnoresOrder(digest, init, ys[..i] + ys[i + 1..]);
      StateHashJoins(digest, init, [x]);
      StateHashJoins(digest, ys[..i] + ys[i + 1..], [x]);
    }
  }

  // ---------------------------------------------------------------- commit as a step of the world

  /** Keep at most the newest MAX_COMMIT_HISTORY records. */
  function Bounded(history: seq<CommitRecord>): seq<CommitRecord> {
    if |history| > MAX_COMMIT_HISTORY then history[|history| - MAX_COMMIT_HISTORY..] else history
  }

  function ViewAt(tables: TableMap, tick: Tick, name: string): View
    requires TablesWellFormed(tables) && name in tables
  {
    ViewOf(name, tick, BatchesAt(tables[name].versions, tick), tables[name].positions)
  }

  function ViewsAt(tables: TableMap, tick: Tick): ViewMap
    requires TablesWellFormed(tables)
  {
    map n | n in tables :: ViewAt(tables, tick, n)
  }

  /** An engine that has just published these tables. */
  function Publicized(e: EngineState, tables: TableMap, tick: Tick): EngineState
    requires TablesWellFormed(tables)
  {
    e.(cache := ViewsAt(tables, tick), latestTick := tick, latestSnapshot := Some(Snapshot(tick, tables)),
      pending := None)
  }

  function AfterPublish(e: Option<EngineState>, tables: TableMap, tick: Tick): Option<EngineState>
    requires TablesWellFormed(tables)
  {
    match e
    case None => None
    case Some(engine) => Some(Publicized(engine, tables, tick))
  }

  /** Diffs applied, a snapshot taken, and only then the hash. */
  function AppliedAndHashed(s: StoreState, tick: Tick, diffs: seq<Diff>, digest: Digest)
    : (r: (StoreState, Result<u64, JournalError>))
    requires TablesWellFormed(s.tables)
    ensures TablesWellFormed(r.0.tables)
    ensures r.1.Ok? ==> tick in r.0.snapshots && r.0.snapshots[tick] == Snapshot(tick, r.0.tables)
  {
    var (applied, error) := ApplyDiffsTo(s, tick, diffs);
    match error
    case Some(e) => (applied, Err(StoreFailed(e)))
    case None =>
      match StateHash(digest, diffs)
      case Some(h) => (WithSnapshot(applied, tick), Ok(h))
      case None => (WithSnapshot(applied, tick), Err(EncodeFailed))
  }

  lemma HashStages(s: StoreState, tick: Tick, diffs: seq<Diff>, digest: Digest)
    requires TablesWellFormed(s.tables)
    ensures var (applied, error) := ApplyDiffsTo(s, tick, diffs);
      && (error.None? ==> applied.simulation)
      && AppliedAndHashed(s, tick, diffs, digest) ==
           if error.Some? then (applied, Err(StoreFailed(error.value)))
           else if StateHash(digest, diffs).None? then (WithSnapshot(applied, tick), Err(EncodeFailed))
           else (WithSnapshot(applied, tick), Ok(StateHash(digest, diffs).value))
  {
    hide ApplyEach, StateHash, WithSnapshot, BatchesWellFormed;
  }

  predicate CanPublish(e: Option<EngineState>, tables: TableMap) {
    e.Some? ==> e.value.pending.None? && tables.Keys <= e.value.schemas
  }

  /** The four places where a commit can fail, in order: apply, encode, publish, append. */
  function CommitFailure(w: World, digest: Digest, appendOk: bool): Option<JournalError>
    requires TablesWellFormed(w.store.tables)
  {
    var j := w.journal;
    var applied := ApplyDiffsTo(w.store, j.tick, j.diffs);
    if j.phase != Open then Some(NotOpen)
    else if applied.1.Some? then Some(StoreFailed(applied.1.value))
    else if StateHash(digest, j.diffs).None? then Some(EncodeFailed)
    else if !CanPublish(w.engine, w.store.tables) then Some(IngestFailed)
    else if w.saving && !appendOk then Some(AppendFailed)
    else None
  }

  /** A failed commit: the versions are back, a snapshot taken on the way is not. */
  function AfterFailure(w: World, error: JournalError): World
    requires TablesWellFormed(w.store.tables)
  {
    if error.NotOpen? || !w.store.simulation then w
    else
      var j := w.journal;
      var applied := ApplyEach(w.store.tables, j.tick, j.diffs).tables;
      var snapped := if error.StoreFailed? then w.store else WithSnapshot(w.store.(tables := applied), j.tick);
      w.(store := snapped.(tables := RolledBack(w.store.tables, j.tick, j.diffs)))
  }

  function AfterSuccess(w: World, hash: u64): World
    requires TablesWellFormed(w.store.tables)
  {
    var j := w.journal;
    var store := WithSnapshot(w.store.(tables := ApplyEach(w.store.tables, j.tick, j.diffs).tables), j.tick);
    var record := CommitRecord(j.tick, j.diffs, j.commands, hash);
    World(JournalState(NextTick(j.tick), Open, [], [], Bounded(j.history + [record])),
          store, AfterPublish(w.engine, store.tables, j.tick), w.saving)
  }

  function Commit(w: World, digest: Digest, appendOk: bool): (r: (World, Result<CommitResult, JournalError>))
    requires TablesWellFormed(w.store.tables)
    ensures TablesWellFormed(r.0.store.tables)
  {
    var failure := CommitFailure(w, digest, appendOk);
    match failure
    case Some(error) => (AfterFailure(w, error), Err(error))
    case None =>
      var j := w.journal;
      var hash := StateHash(digest, j.diffs).value;
      (AfterSuccess(w, hash), Ok(CommitResult(j.tick, |j.diffs|, |j.commands|, hash)))
  }

  // ---------------------------------------------------------------- the journal object

  class Journal {
    var currentTick: Tick
    var phase: Phase
    var pendingCommands: seq<Envelope>
    var pendingDiffs: seq<Diff>
    var history: seq<CommitRecord>
    const store: ArrowStore
    const engine: QueryEngine?
    const saving: bool
    const digest: Digest

    function JournalPart(): JournalState
      reads this
    {
      JournalState(currentTick, phase, pendingCommands, pendingDiffs, history)
    }

    function EnginePart(): Option<EngineState>
      reads engine
    {
      if engine == null then None else Some(engine.State())
    }

    function State(): World
      reads this, store, store.tables.Values, engine
    {
      World(JournalPart(), store.State(), EnginePart(), saving)
    }

    ghost predicate Valid()
      reads this, store, store.tables.Values
    {
      store.Valid() && currentTick <= TICK_MAX
    }

    constructor (store: ArrowStore, engine: QueryEngine?, saving: bool, digest: Digest)
      requires store.Valid()
      ensures Valid() && JournalPart() == JournalState(0, Open, [], [], [])
      ensures this.store == store && this.engine == engine && this.saving == saving && this.digest == digest
    {
      this.store, this.engine, this.saving, this.digest := store, engine, saving, digest;
      currentTick, phase, pendingCommands, pendingDiffs, history := 0, Open, [], [], [];
    }

    method SubmitCommand(envelope: Envelope) returns (error: Option<JournalError>)
      modifies this`pendingCommands
      ensures error == if phase != Open then Some(NotOpen)
                       else if envelope.tick != currentTick then Some(InvalidTick(currentTick, envelope.tick))
                       else None
      ensures pendingCommands == if error.None? then old(pendingCommands) + [envelope] else old(pendingCommands)
    {
      if phase != Open {
        return Some(NotOpen);
      }
      if envelope.tick != currentTick {
        return Some(InvalidTick(currentTick, envelope.tick));
      }
      pendingCommands := pendingCommands + [envelope];
      error := None;
    }

    method SubmitDiff(d: Diff) returns (error: Option<JournalError>)
      modifies this`pendingDiffs
      ensures error == if phase != Open then Some(NotOpen) else None
      ensures pendingDiffs == if error.None? then old(pendingDiffs) + [d] else old(pendingDiffs)
    {
      if phase != Open {
        return Some(NotOpen);
      }
      pendingDiffs := pendingDiffs + [d];
      error := None;
    }

    method SubmitBatch(diffs: seq<Diff>) returns (error: Option<JournalError>)
      modifies this`pendingDiffs
      ensures error == if phase != Open && diffs != [] then Some(NotOpen) else None
      ensures pendingDiffs == if error.None? then old(pendingDiffs) + diffs else old(pendingDiffs)
    {
      for i := 0 to |diffs|
        invariant i > 0 ==> phase == Open
        invariant pendingDiffs == old(pendingDiffs) + diffs[..i]
      {
        error := SubmitDiff(diffs[i]);
        if error.Some? {
          return;
        }
        assert diffs[..i + 1] == diffs[..i] + [diffs[i]];
      }
      assert diffs[..|diffs|] == diffs;
      error := None;
    }

    method ClearPending() returns (error: Option<JournalError>)
      modifies this`pendingDiffs, this`pendingCommands
      ensures error == if phase != Open then Some(NotOpen) else None
      ensures if error.None? then pendingDiffs == [] && pendingCommands == []
              else pendingDiffs == old(pendingDiffs) && pendingCommands == old(pendingCommands)
    {
      if phase != Open {
        return Some(NotOpen);
      }
      pendingCommands, pendingDiffs := [], [];
      error := None;
    }

    /** Apply the diffs, take the snapshot, and only then hash: a hash failure leaves the snapshot behind. */
    method ApplyDiffsAndHash(diffs: seq<Diff>) returns (r: Result<u64, JournalError>)
      requires Valid()
      modifies store`snapshots, store`generation, store.tables.Values
      ensures Valid()
      ensures (store.State(), r) == AppliedAndHashed(old(store.State()), currentTick, diffs, digest)
      ensures State() == old(State()).(store := store.State())
    {
      HashStages(store.State(), currentTick, diffs, digest);
      hide AppliedAndHashed, ApplyDiffsTo, WithSnapshot, StateHash, BatchesWellFormed;
      var applyError := store.ApplyDiffs(currentTick, diffs);
      if applyError.Some? {
        return Err(StoreFailed(applyError.value));
      }
      var snapshotError := store.GenerateSnapshot(currentTick);
      match snapshotError {
        case Some(e) => return Err(StoreFailed(e));
        case None =>
      }
      var stateHash := HashDiffs(diffs);
      r := if stateHash.Some? then Ok(stateHash.value) else Err(EncodeFailed);
    }

    method HashDiffs(diffs: seq<Diff>) returns (r: Option<u64>)
      ensures r == StateHash(digest, diffs)
    {
      var stateHash: u64 := 0;
      for i := 0 to |diffs|
        invariant StateHash(digest, diffs[..i]) == Some(stateHash)
      {
        assert diffs[..i + 1][..i] == diffs[..i];
        var d := digest(diffs[i]);
        if d.None? {
          UnencodableDiff(digest, diffs, i + 1);
          return None;
        }
        stateHash := WrappingAdd(stateHash, d.value);
      }
      assert diffs[..|diffs|] == diffs;
      r := Some(stateHash);
    }

    /** Ingest a view of every table, in whatever order the snapshot yields the names, and publish. */
    method PublishTables(qe: QueryEngine, snapshot: Snapshot) returns (ok: bool)
      requires Valid() && qe.State().pending == Some(Pending(None, map[]))
      requires snapshot == Snapshot(currentTick, store.Values())
      modifies qe
      ensures ok <==> store.Values().Keys <= old(qe.State()).schemas
      ensures ok ==> qe.State() == Publicized(old(qe.State()), store.Values(), currentTick)
      ensures !ok ==> Visible(qe.State()) == Visible(old(qe.State())) && qe.schemas == old(qe.schemas)
    {
      ghost var before := qe.State();
      var tables := store.Values();
      var remaining := tables.Keys;
      assert StagedFor(before, tables, currentTick, remaining) == before;
      while remaining != {}
        invariant remaining <= tables.Keys && tables.Keys - remaining <= before.schemas
        invariant qe.State() == StagedFor(before, tables, currentTick, remaining)
      {
        var name :| name in remaining;
        StageStep(before, tables, currentTick, remaining, name);
        hide BatchesWellFormed, ViewOf, StagedFor, Ingested;
        var error := qe.IngestSnapshot(currentTick, name, BatchesAt(tables[name].versions, currentTick),
          tables[name].positions);
        if error.Some? {
          assert name in tables.Keys && name !in before.schemas;
          return false;
        }
        remaining := remaining - {name};
      }
      assert tables.Keys - remaining == tables.Keys;
      PublishStaged(before, tables, currentTick);
      var error := qe.StoreWorldSnapshot(snapshot);
      ok := true;
    }

    /** Publish to the engine if there is one; a failed publication is rolled back. */
    method Publish(snapshot: Snapshot) returns (rollback: Option<IngestRollback>, ok: bool)
      requires Valid() && snapshot == Snapshot(currentTick, store.State().tables)
      modifies engine
      ensures ok <==> CanPublish(old(EnginePart()), snapshot.tables)
      ensures Valid() && State() == old(State()).(
        engine := if ok then AfterPublish(old(EnginePart()), snapshot.tables, currentTick) else old(EnginePart()))
      ensures ok ==> rollback == CapturedFrom(old(EnginePart()))
    {
      rollback, ok := None, true;
      hide BatchesWellFormed, Publicized;
      if engine != null {
        rollback, ok := PublishTo(engine, snapshot);
      }
    }

    /** Stage and publish; an engine that refuses ends as it was. */
    method PublishTo(qe: QueryEngine, snapshot: Snapshot) returns (rollback: Option<IngestRollback>, ok: bool)
      requires Valid() && snapshot == Snapshot(currentTick, store.Values())
      modifies qe
      ensures ok <==> CanPublish(Some(old(qe.State())), snapshot.tables)
      ensures qe.State() == if ok then Publicized(old(qe.State()), snapshot.tables, currentTick) else old(qe.State())
      ensures ok ==> rollback == Some(Captured(old(qe.State())))
    {
      hide BatchesWellFormed, Publicized;
      var captured, beginError := qe.BeginIngest();
      if beginError.Some? {
        return None, false;
      }
      ghost var begun := qe.State();
      ok := PublishTables(qe, snapshot);
      BegunIsPublicized(old(qe.State()), begun, snapshot.tables, currentTick);
      rollback := Some(captured);
      if !ok {
        ghost var staged := qe.State();
        qe.Rollback(captured);
        UnseenStaging(old(qe.State()), staged);
      }
    }

    /** Take a publication back. */
    method Retract(ghost before: Option<EngineState>, rollback: Option<IngestRollback>, ghost tables: TableMap)
      requires Valid() && TablesWellFormed(tables) && CanPublish(before, tables)
      requires rollback == CapturedFrom(before) && EnginePart() == AfterPublish(before, tables, currentTick)
      modifies engine
      ensures Valid() && State() == old(State()).(engine := before)
    {
      if engine != null && rollback.Some? {
        engine.Rollback(rollback.value);
        RollbackUndoesPublication(before.value, tables, currentTick);
      }
    }

    /** Append to the history, drop the oldest records beyond the bound, and open the next tick. */
    method Record(record: CommitRecord)
      requires Valid()
      modifies this
      ensures Valid() && State() == old(State()).(journal :=
        JournalState(NextTick(old(currentTick)), Open, old(pendingCommands), old(pendingDiffs),
          Bounded(old(history) + [record])))
    {
      history := history + [record];
      ghost var all := history;
      while |history| > MAX_COMMIT_HISTORY
        invariant |history| <= |all| && history == all[|all| - |history|..]
        invariant |history| < |all| ==> |history| >= MAX_COMMIT_HISTORY
        decreases |history|
        modifies this`history
      {
        history := history[1..];
      }
      phase := Committed;
      currentTick := NextTick(currentTick);
      phase := Open;
      assert store.State() == old(store.State());
    }

    /** Close the phase and take what was submitted. */
    method Take() returns (diffs: seq<Diff>, commands: seq<Envelope>)
      requires Valid()
      modifies this
      ensures Valid() && diffs == old(pendingDiffs) && commands == old(pendingCommands)
      ensures State() == old(State()).(journal := JournalState(old(currentTick), Committing, [], [], old(history)))
    {
      phase := Committing;
      diffs, commands := pendingDiffs, pendingCommands;
      pendingDiffs, pendingCommands := [], [];
      assert store.State() == old(store.State());
    }

    /** Put the saved versions and the taken submissions back and reopen. */
    method Undo(saved: SavedVersions, diffs: seq<Diff>, commands: seq<Envelope>)
      requires Valid() && forall n :: n in saved ==> BatchesWellFormed(saved[n])
      modifies this, store.tables.Values
      ensures Valid() && State() == old(State()).(
        store := old(store.State()).(tables := Restored(old(store.State()).tables, saved)),
        journal := JournalState(old(currentTick), Open, commands, diffs, old(history)))
    {
      store.RestoreTableVersions(saved);
      assert EnginePart() == old(EnginePart()) && JournalPart() == old(JournalPart());
      Reopen(diffs, commands);
    }

    method Reopen(diffs: seq<Diff>, commands: seq<Envelope>)
      requires Valid()
      modifies this
      ensures Valid() &&
        State() == old(State()).(journal := JournalState(old(currentTick), Open, commands, diffs, old(history)))
    {
      pendingDiffs := diffs;
      pendingCommands := commands;
      phase := Open;
      assert store.State() == old(store.State());
    }

    /** From a snapshot of the applied diffs to the end of the commit: publish, append, record. */
    method Conclude(ghost w: World, saved: SavedVersions, record: CommitRecord, appendOk: bool)
      returns (r: Result<CommitResult, JournalError>)
      requires Valid() && forall n :: n in saved ==> BatchesWellFormed(saved[n])
      requires w.journal == JournalState(currentTick, Open, record.commands, record.diffs, history)
      requires State() ==
        w.(store := store.State(), journal := JournalState(record.tick, Committing, [], [], w.journal.history))
      requires currentTick in store.snapshots &&
        store.snapshots[currentTick] == Snapshot(currentTick, store.State().tables)
      modifies this, store.tables.Values, engine
      ensures Valid() && (State(), r) == Concluded(w, old(store.State()), saved, record.stateHash, appendOk)
    {
      ghost var tables := store.State().tables;
      var rollback, published := Publish(store.snapshots[currentTick]);
      if !published {
        Undo(saved, record.diffs, record.commands);
        return Err(IngestFailed);
      }
      if saving && !appendOk {
        Retract(w.engine, rollback, tables);
        Undo(saved, record.diffs, record.commands);
        return Err(AppendFailed);
      }
      Record(record);
      r := Ok(CommitResult(record.tick, |record.diffs|, |record.commands|, record.stateHash));
    }

    /** appendOk is what the save journal's append will answer. */
    method CommitTick(appendOk: bool) returns (r: Result<CommitResult, JournalError>)
      requires Valid()
      modifies this, store`snapshots, store`generation, store.tables.Values, engine
      ensures Valid() && (State(), r) == Commit(old(State()), digest, appendOk)
    {
      ghost var w := State();
      CommitStages(w, digest, appendOk);
      hide Commit, AppliedAndHashed, Concluded, BatchesWellFormed;
      if phase != Open {
        return Err(NotOpen);
      }
      var diffs, commands := Take();
      var saved := SaveTouched(diffs);
      r := Settle(w, saved, diffs, commands, appendOk);
    }

    /** From the taken batch to the end of the commit. */
    method Settle(ghost w: World, saved: SavedVersions, diffs: seq<Diff>, commands: seq<Envelope>, appendOk: bool)
      returns (r: Result<CommitResult, JournalError>)
      requires Valid() && forall n :: n in saved ==> BatchesWellFormed(saved[n])
      requires w.journal == JournalState(currentTick, Open, commands, diffs, history)
      requires State() == w.(journal := JournalState(currentTick, Committing, [], [], history))
      modifies this, store`snapshots, store`generation, store.tables.Values, engine
      ensures Valid()
      ensures (State(), r) ==
        (var (applied, hash) := AppliedAndHashed(w.store, w.journal.tick, diffs, digest);
         if hash.Err? then (w.(store := applied.(tables := Restored(applied.tables, saved))), Err(hash.error))
         else Concluded(w, applied, saved, hash.value, appendOk))
    {
      hide Concluded, BatchesWellFormed;
      var applied := ApplyDiffsAndHash(diffs);
      hide AppliedAndHashed;
      if applied.Err? {
        Undo(saved, diffs, commands);
        r := Err(applied.error);
      } else {
        r := Conclude(w, saved, CommitRecord(currentTick, diffs, commands, applied.value), appendOk);
      }
    }

    method SaveTouched(diffs: seq<Diff>) returns (saved: SavedVersions)
      requires Valid()
      ensures saved == Saved(store.State().tables, Touched(diffs))
      ensures forall n :: n in saved ==> BatchesWellFormed(saved[n])
    {
      var names := seq(|diffs|, (i: nat) requires i < |diffs| => diffs[i].name);
      NamesAreTouched(diffs, names);
      SavedWellFormed(store.Values(), Touched(diffs));
      saved := store.SaveTableVersions(names);
    }
  }

  lemma CommitStages(w: World, digest: Digest, appendOk: bool)
    requires TablesWellFormed(w.store.tables)
    ensures Commit(w, digest, appendOk) ==
      (var (applied, hash) := AppliedAndHashed(w.store, w.journal.tick, w.journal.diffs, digest);
       var saved := Saved(w.store.tables, Touched(w.journal.diffs));
       if w.journal.phase != Open then (w, Err(NotOpen))
       else if hash.Err? then (w.(store := applied.(tables := Restored(applied.tables, saved))), Err(hash.error))
       else Concluded(w, applied, saved, hash.value, appendOk))
  {
    if w.journal.phase == Open {
      CommitCases(w, digest, appendOk);
    }
    hide AppliedAndHashed, Concluded, BatchesWellFormed, ApplyDiffsTo, StateHash, ApplyEach;
  }

  lemma BegunIsPublicized(e: EngineState, begun: EngineState, tables: TableMap, tick: Tick)
    requires TablesWellFormed(tables) && Begun(e) == (begun, None)
    ensures Publicized(begun, tables, tick) == Publicized(e, tables, tick)
  {
  }

  lemma UnseenStaging(e: EngineState, staged: EngineState)
    requires e.pending.None? && Visible(staged) == Visible(e) && staged.schemas == e.schemas
    ensures RolledBackTo(staged, Captured(e)) == e
  {
  }

  lemma RollbackUndoesPublication(e: EngineState, tables: TableMap, tick: Tick)
    requires TablesWellFormed(tables) && e.pending.None?
    ensures RolledBackTo(Publicized(e, tables, tick), Captured(e)) == e
  {
  }

  /** The end of a commit whose diffs are applied, snapshotted and hashed. */
  function Concluded(w: World, applied: StoreState, saved: SavedVersions, hash: u64, appendOk: bool)
    : (World, Result<CommitResult, JournalError>)
    requires TablesWellFormed(applied.tables)
  {
    var j := w.journal;
    var back := w.(store := applied.(tables := Restored(applied.tables, saved)));
    if !CanPublish(w.engine, applied.tables) then (back, Err(IngestFailed))
    else if w.saving && !appendOk then (back, Err(AppendFailed))
    else
      (World(JournalState(NextTick(j.tick), Open, [], [],
        Bounded(j.history + [CommitRecord(j.tick, j.diffs, j.commands, hash)])),
             applied,
             AfterPublish(w.engine, applied.tables, j.tick), w.saving),
       Ok(CommitResult(j.tick, |j.diffs|, |j.commands|, hash)))
  }

  function CapturedFrom(e: Option<EngineState>): Option<IngestRollback> {
    match e
    case None => None
    case Some(engine) => Some(Captured(engine))
  }

  /** A commit, in terms of the two stages it is carried out in. */
  lemma CommitCases(w: World, digest: Digest, appendOk: bool)
    requires TablesWellFormed(w.store.tables) && w.journal.phase == Open
    ensures var (applied, hash) := AppliedAndHashed(w.store, w.journal.tick, w.journal.diffs, digest);
      var saved := Saved(w.store.tables, Touched(w.journal.diffs));
      Commit(w, digest, appendOk) ==
        if hash.Err? then (w.(store := applied.(tables := Restored(applied.tables, saved))), Err(hash.error))
        else Concluded(w, applied, saved, hash.value, appendOk)
  {
    var saved := Saved(w.store.tables, Touched(w.journal.diffs));
    hide BatchesWellFormed, ApplyEach, StateHash, Bounded;
    forall tables: TableMap ensures Restored(Restored(tables, saved), saved) == Restored(tables, saved) {
    }
    if !w.store.simulation {
      assert Restored(w.store.tables, saved) == w.store.tables;
    }
  }

  /** The engine while the tables outside remaining are staged. */
  function StagedFor(e: EngineState, tables: TableMap, tick: Tick, remaining: set<string>): EngineState
    requires TablesWellFormed(tables)
  {
    e.(pending := Some(Pending(
      if remaining == tables.Keys then None else Some(tick),
      map n | n in tables && n !in remaining :: ViewAt(tables, tick, n))))
  }

  lemma StageStep(e: EngineState, tables: TableMap, tick: Tick, remaining: set<string>, name: string)
    requires TablesWellFormed(tables) && name in remaining && remaining <= tables.Keys && tick <= TICK_MAX
    ensures AllWellFormed(BatchesAt(tables[name].versions, tick))
    ensures var view := ViewOf(name, tick, BatchesAt(tables[name].versions, tick), tables[name].positions);
      Ingested(StagedFor(e, tables, tick, remaining), tick, view) ==
        if name in e.schemas then (StagedFor(e, tables, tick, remaining - {name}), None)
        else (StagedFor(e, tables, tick, remaining), Some(SchemaMissing(name)))
  {
    ViewAtIsViewOf(tables, tick, name);
    hide BatchesWellFormed, ViewAt, MergedBatches, Merges;
    var next := StagedFor(e, tables, tick, remaining - {name});
    assert next.pending.value.views ==
           StagedFor(e, tables, tick, remaining).pending.value.views[name := ViewAt(tables, tick, name)];
  }

  lemma PublishStaged(e: EngineState, tables: TableMap, tick: Tick)
    requires TablesWellFormed(tables) && tick <= TICK_MAX
    ensures Published(StagedFor(e, tables, tick, {}), Snapshot(tick, tables)) == (Publicized(e, tables, tick), None)
  {
    hide BatchesWellFormed, ViewAt;
    assert StagedFor(e, tables, tick, {}).pending.value.views == ViewsAt(tables, tick);
  }

  lemma ViewAtIsViewOf(tables: TableMap, tick: Tick, name: string)
    requires TablesWellFormed(tables) && name in tables
    ensures AllWellFormed(BatchesAt(tables[name].versions, tick))
    ensures ViewAt(tables, tick, name) ==
      ViewOf(name, tick, BatchesAt(tables[name].versions, tick), tables[name].positions)
  {
  }

  lemma {:induction false} UnencodableDiff(digest: Digest, diffs: seq<Diff>, m: nat)
    requires m <= |diffs| && StateHash(digest, diffs[..m]).None?
    ensures StateHash(digest, diffs).None?
    decreases |diffs|
  {
    if m < |diffs| {
      assert diffs[..|diffs| - 1][..m] == diffs[..m];
      UnencodableDiff(digest, diffs[..|diffs| - 1], m);
    } else {
      assert diffs[..m] == diffs;
    }
  }
}
