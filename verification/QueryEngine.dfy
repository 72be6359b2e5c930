/** The read side: cached table views, the tick they belong to, and a staging area for one publication at a time. */
module QueryEngines {
  import opened Machine
  import opened Batches
  import opened KeyIndexes
  import opened Tables
  import opened Stores
  import opened ReadViews

  /** The value of latest_tick that stands for "none". */
  const NO_TICK: u64 := U64_MAX

  type ViewMap = map<string, View>

  datatype Pending = Pending(tick: Option<Tick>, views: ViewMap)

  datatype QueryError =
    | TicksMismatch(requested: Tick, actual: Option<Tick>)
    | ViewNotFound(table: string)
    | SchemaMissing(table: string)
    | SentinelTick
    | IngestActive

  datatype EngineState = EngineState(
    schemas: set<string>, cache: ViewMap, latestTick: u64, latestSnapshot: Option<Snapshot>, pending: Option<Pending>)

  /** The published state captured when an ingest begins. */
  datatype IngestRollback = IngestRollback(cache: ViewMap, tick: u64, snapshot: Option<Snapshot>)

  type EngineStep = (EngineState, Option<QueryError>)

  function LatestTick(e: EngineState): Option<Tick> {
    if e.latestTick == NO_TICK then None else Some(e.latestTick)
  }

  function Begun(e: EngineState): EngineStep {
    if e.pending.Some? then (e, Some(IngestActive)) else (e.(pending := Some(Pending(None, map[]))), None)
  }

  function Captured(e: EngineState): IngestRollback {
    IngestRollback(e.cache, e.latestTick, e.latestSnapshot)
  }

  function Ingested(e: EngineState, tick: Tick, view: View): EngineStep {
    if tick == NO_TICK then (e, Some(SentinelTick))
    else if view.table !in e.schemas then (e, Some(SchemaMissing(view.table)))
    else
      match e.pending
      case Some(p) =>
        if p.tick.Some? && p.tick.value != tick then (e, Some(TicksMismatch(tick, p.tick)))
        else (e.(pending := Some(Pending(Some(tick), p.views[view.table := view]))), None)
      case None => (e.(cache := e.cache[view.table := view], latestTick := tick), None)
  }

  function Published(e: EngineState, s: Snapshot): EngineStep {
    if s.tick == NO_TICK then (e, Some(SentinelTick))
    else
      match e.pending
      case None => (e.(latestSnapshot := Some(s)), None)
      case Some(p) =>
        if p.tick.Some? && p.tick.value != s.tick then (e, Some(TicksMismatch(s.tick, p.tick)))
        else (e.(cache := p.views, latestSnapshot := Some(s), latestTick := s.tick, pending := None), None)
  }

  function RolledBackTo(e: EngineState, saved: IngestRollback): EngineState {
    e.(cache := saved.cache, latestSnapshot := saved.snapshot, latestTick := saved.tick, pending := None)
  }

  /** A read of several tables; the first missing one fails it. */
  function ReadTables(e: EngineState, tick: Tick, names: seq<string>): Result<ViewMap, QueryError> {
    if tick != 0 && LatestTick(e) != Some(tick) then Err(TicksMismatch(tick, LatestTick(e)))
    else CollectViews(e.cache, names)
  }

  function CollectViews(cache: ViewMap, names: seq<string>): Result<ViewMap, QueryError> {
    if names == [] then Ok(map[])
    else
      match CollectViews(cache, names[..|names| - 1])
      case Err(e) => Err(e)
      case Ok(views) =>
        var name := names[|names| - 1];
        if name in cache then Ok(views[cache[name].table := cache[name]]) else Err(ViewNotFound(name))
  }

  // ---------------------------------------------------------------- the engine object

  class QueryEngine {
    var schemas: set<string>
    var cache: ViewMap
    var latestTick: u64
    var latestSnapshot: Option<Snapshot>
    var pending: Option<Pending>

    function State(): EngineState
      reads this
    {
      EngineState(schemas, cache, latestTick, latestSnapshot, pending)
    }

    constructor (schemas: set<string>)
      ensures State() == EngineState(schemas, map[], NO_TICK, None, None)
      ensures Settled(State())
    {
      this.schemas := schemas;
      cache, latestTick, latestSnapshot, pending := map[], NO_TICK, None, None;
    }

    method BeginIngest() returns (saved: IngestRollback, error: Option<QueryError>)
      modifies this`pending
      ensures (State(), error) == Begun(old(State())) && saved == Captured(old(State()))
    {
      saved := IngestRollback(cache, latestTick, latestSnapshot);
      if pending.Some? {
        return saved, Some(IngestActive);
      }
      pending := Some(Pending(None, map[]));
      error := None;
    }

    method IngestSnapshot(tick: Tick, table: string, batches: seq<Batch>, positions: Positions)
      returns (error: Option<QueryError>)
      requires AllWellFormed(batches)
      modifies this
      ensures (State(), error) == Ingested(old(State()), tick, ViewOf(table, tick, batches, positions))
    {
      if tick == NO_TICK {
        return Some(SentinelTick);
      }
      if table !in schemas {
        return Some(SchemaMissing(table));
      }
      var view := NewView(table, tick, batches, positions);
      if pending.Some? {
        var p := pending.value;
        if p.tick.Some? && p.tick.value != tick {
          return Some(TicksMismatch(tick, p.tick));
        }
        pending := Some(Pending(Some(tick), p.views[table := view]));
        return None;
      }
      cache := cache[table := view];
      latestTick := tick;
      return None;
    }

    method StoreWorldSnapshot(s: Snapshot) returns (error: Option<QueryError>)
      modifies this
      ensures (State(), error) == Published(old(State()), s)
    {
      if s.tick == NO_TICK {
        return Some(SentinelTick);
      }
      if pending.Some? && pending.value.tick.Some? && pending.value.tick.value != s.tick {
        return Some(TicksMismatch(s.tick, pending.value.tick));
      }
      var staged := pending;
      pending := None;
      if staged.Some? {
        cache := staged.value.views;
      }
      latestSnapshot := Some(s);
      if staged.Some? {
        latestTick := s.tick;
      }
      return None;
    }

    method Rollback(saved: IngestRollback)
      modifies this
      ensures State() == RolledBackTo(old(State()), saved)
    {
      cache := saved.cache;
      latestSnapshot := saved.snapshot;
      pending := None;
      latestTick := saved.tick;
    }

    method Read(tick: Tick, names: seq<string>) returns (r: Result<ViewMap, QueryError>)
      ensures r == ReadTables(State(), tick, names)
      ensures Named(cache) ==> (r.Ok? <==> IsCurrent(State(), tick) && forall n :: n in names ==> n in cache)
      ensures Named(cache) && r.Ok? ==> r.value == map n | n in names && n in cache :: cache[n]
      ensures Settled(State()) && r.Ok? && tick != 0 ==> forall n :: n in r.value ==> r.value[n].tick == tick
    {
      StampedReads(State(), tick, names);
      if Named(cache) {
        ReadIff(State(), tick, names);
      }
      if tick != 0 && LatestTick(State()) != Some(tick) {
        return Err(TicksMismatch(tick, LatestTick(State())));
      }
      var views: ViewMap := map[];
      for i := 0 to |names|
        invariant CollectViews(cache, names[..i]) == Ok(views)
      {
        assert names[..i + 1][..i] == names[..i];
        if names[i] !in cache {
          MissingViewStays(cache, names, i + 1);
          return Err(ViewNotFound(names[i]));
        }
        views := views[cache[names[i]].table := cache[names[i]]];
      }
      assert names[..|names|] == names;
      r := Ok(views);
    }
  }

  lemma {:induction false} MissingViewStays(cache: ViewMap, names: seq<string>, m: nat)
    requires m <= |names| && CollectViews(cache, names[..m]).Err?
    ensures CollectViews(cache, names) == CollectViews(cache, names[..m])
    decreases |names|
  {
    if m < |names| {
      assert names[..|names| - 1][..m] == names[..m];
      MissingViewStays(cache, names[..|names| - 1], m);
    } else {
      assert names[..m] == names;
    }
  }

  // ---------------------------------------------------------------- what readers can rely on

  /** Every cached view carries the latest tick and its own name. */
  predicate Stamped(e: EngineState) {
    forall n :: n in e.cache ==> e.latestTick != NO_TICK && e.cache[n].tick == e.latestTick && e.cache[n].table == n
  }

  /** Between commits: nothing is staged, and the cache is of one tick. */
  predicate Settled(e: EngineState) {
    e.pending.None? && Stamped(e)
  }

  /** What readers can see. */
  function Visible(e: EngineState): (ViewMap, u64, Option<Snapshot>) {
    (e.cache, e.latestTick, e.latestSnapshot)
  }

  /** A successful read at a nonzero tick returns views of that tick only, exactly for the requested names. */
  lemma {:induction false} CollectedViews(cache: ViewMap, names: seq<string>)
    requires forall n :: n in cache ==> cache[n].table == n
    ensures CollectViews(cache, names).Ok? <==> forall n :: n in names ==> n in cache
    ensures CollectViews(cache, names).Ok? ==>
      CollectViews(cache, names).value == map n | n in names && n in cache :: cache[n]
  {
    if names != [] {
      CollectedViews(cache, names[..|names| - 1]);
      assert names == names[..|names| - 1] + [names[|names| - 1]];
    }
  }

  /** Every view is filed under its own name. */
  predicate Named(views: ViewMap) {
    forall n :: n in views ==> views[n].table == n
  }

  /** A tick at which a read is let through: zero stands for whatever is there, any other must be the published one. */
  predicate IsCurrent(e: EngineState, tick: Tick) {
    tick == 0 || (tick != NO_TICK && e.latestTick == tick)
  }

  /** The first of some names that is not cached. */
  ghost predicate FirstMissing(cache: ViewMap, names: seq<string>, i: int) {
    0 <= i < |names| && names[i] !in cache && forall j :: 0 <= j < i ==> names[j] in cache
  }

  lemma {:induction false} CollectFails(cache: ViewMap, names: seq<string>, i: nat)
    requires FirstMissing(cache, names, i)
    ensures CollectViews(cache, names) == Err(ViewNotFound(names[i]))
    decreases |names|
  {
    var init := names[..|names| - 1];
    if i < |init| {
      CollectFails(cache, init, i);
    } else {
      assert forall n :: n in init ==> n in cache;
      AllCollected(cache, init);
    }
  }

  lemma {:induction false} AllCollected(cache: ViewMap, names: seq<string>)
    requires forall n :: n in names ==> n in cache
    ensures CollectViews(cache, names).Ok?
  {
    if names != [] {
      AllCollected(cache, names[..|names| - 1]);
    }
  }

  /** Exactly when a read succeeds, and with what: the tick is current and every table is cached, and then it gives the
      cached views. A stale tick is reported before a missing table, and of several missing tables the first is. */
  lemma ReadIff(e: EngineState, tick: Tick, names: seq<string>)
    requires Named(e.cache)
    ensures ReadTables(e, tick, names).Ok? <==> IsCurrent(e, tick) && forall n :: n in names ==> n in e.cache
    ensures ReadTables(e, tick, names).Ok? ==>
      ReadTables(e, tick, names).value == map n | n in names && n in e.cache :: e.cache[n]
    ensures !IsCurrent(e, tick) ==>
      ReadTables(e, tick, names) ==
      Err(TicksMismatch(tick, if e.latestTick == NO_TICK then None else Some(e.latestTick)))
    ensures forall i :: IsCurrent(e, tick) && FirstMissing(e.cache, names, i) ==>
      ReadTables(e, tick, names) == Err(ViewNotFound(names[i]))
  {
    CollectedViews(e.cache, names);
    forall i | FirstMissing(e.cache, names, i) ensures CollectViews(e.cache, names) == Err(ViewNotFound(names[i])) {
      CollectFails(e.cache, names, i);
    }
    hide CollectViews;
  }

  /** Cached and staged views are filed under their own names. */
  predicate Filed(e: EngineState) {
    Named(e.cache) && (e.pending.Some? ==> Named(e.pending.value.views))
  }

  /** Whatever the engine does, its views stay filed under their names. */
  lemma StepsKeepFiled(e: EngineState, tick: Tick, view: View, s: Snapshot, saved: IngestRollback)
    requires Filed(e) && Named(saved.cache)
    ensures Filed(Begun(e).0) && Filed(Ingested(e, tick, view).0) && Filed(Published(e, s).0)
    ensures Filed(RolledBackTo(e, saved)) && Named(Captured(e).cache)
  {
  }

  /** Without a staged ingest a view is readable at its tick as soon as it is ingested, and nothing older is. */
  lemma DirectIngestIsRead(e: EngineState, tick: Tick, view: View)
    requires Filed(e) && e.pending.None? && tick != NO_TICK && view.table in e.schemas
    ensures var (after, error) := Ingested(e, tick, view);
      && error.None? && after.pending.None? && after.latestSnapshot == e.latestSnapshot
      && ReadTables(after, tick, [view.table]) == Ok(map[view.table := view])
      && (forall t: Tick :: t != 0 && t != tick ==> ReadTables(after, t, []).Err?)
      && (forall n :: n != view.table ==> (n in after.cache <==> n in e.cache))
      && (forall n :: n != view.table && n in e.cache ==> after.cache[n] == e.cache[n])
  {
    var after := Ingested(e, tick, view).0;
    ReadIff(after, tick, [view.table]);
    assert (map n | n in [view.table] && n in after.cache :: after.cache[n]) == map[view.table := view];
    forall t: Tick | t != 0 && t != tick ensures ReadTables(after, t, []).Err? {
      ReadIff(after, t, []);
    }
  }

  /** Why an ingest or a publication fails; a failed one changes nothing. */
  lemma EngineErrors(e: EngineState, tick: Tick, view: View, s: Snapshot)
    ensures var (after, error) := Ingested(e, tick, view);
      var clash := e.pending.Some? && e.pending.value.tick.Some? && e.pending.value.tick.value != tick;
      && (error.Some? ==> after == e)
      && (error == Some(SentinelTick) <==> tick == NO_TICK)
      && (error == Some(SchemaMissing(view.table)) <==> tick != NO_TICK && view.table !in e.schemas)
      && (error.Some? && error.value.TicksMismatch? <==> tick != NO_TICK && view.table in e.schemas && clash)
      && (error.Some? && error.value.TicksMismatch? ==> error == Some(TicksMismatch(tick, e.pending.value.tick)))
    ensures var (after, error) := Published(e, s);
      var clash := e.pending.Some? && e.pending.value.tick.Some? && e.pending.value.tick.value != s.tick;
      && (error.Some? ==> after == e)
      && (error == Some(SentinelTick) <==> s.tick == NO_TICK)
      && (error == Some(TicksMismatch(s.tick, if clash then e.pending.value.tick else None)) <==>
            s.tick != NO_TICK && clash)
      && (error.None? ==> after.latestSnapshot == Some(s) && after.pending.None?)
      && (error.None? && e.pending.None? ==> after == e.(latestSnapshot := Some(s)))
    ensures Begun(e).1 == (if e.pending.Some? then Some(IngestActive) else None)
    ensures Begun(e).0.pending == (if e.pending.Some? then e.pending else Some(Pending(None, map[])))
  {
  }

  lemma StampedReads(e: EngineState, tick: Tick, names: seq<string>)
    ensures Stamped(e) && ReadTables(e, tick, names).Ok? && tick != 0 ==>
      (forall n :: n in ReadTables(e, tick, names).value ==>
        n in names && ReadTables(e, tick, names).value[n].tick == tick) &&
      (forall n :: n in names ==> n in ReadTables(e, tick, names).value)
  {
    if Stamped(e) {
      CollectedViews(e.cache, names);
    }
  }

  /** Staging is invisible: until it is published, an ingest changes nothing a reader sees, and neither does
      beginning or rolling back. */
  lemma StagingIsInvisible(e: EngineState, tick: Tick, view: View)
    requires e.pending.Some?
    ensures Visible(Ingested(e, tick, view).0) == Visible(e)
    ensures Ingested(e, tick, view).0.pending.Some?
  {
  }

  /** One publication: begin, ingest the views in order, publish; on any error roll back. */
  function Publication(e: EngineState, tick: Tick, views: seq<View>, s: Snapshot): EngineStep {
    var begun := Begun(e);
    if begun.1.Some? then begun
    else
      var staged := IngestAll(begun.0, tick, views);
      if staged.1.Some? then (RolledBackTo(staged.0, Captured(e)), staged.1)
      else
        var published := Published(staged.0, s);
        if published.1.Some? then (RolledBackTo(published.0, Captured(e)), published.1) else published
  }

  /** Ingest views in order up to the first error. */
  function IngestAll(e: EngineState, tick: Tick, views: seq<View>): EngineStep {
    if views == [] then (e, None)
    else
      var before := IngestAll(e, tick, views[..|views| - 1]);
      if before.1.Some? then before else Ingested(before.0, tick, views[|views| - 1])
  }

  /** The staged views after some have been ingested: the last one under each name. */
  function Staged(views: seq<View>): ViewMap {
    if views == [] then map[] else Staged(views[..|views| - 1])[views[|views| - 1].table := views[|views| - 1]]
  }

  lemma IngestStages(e: EngineState, tick: Tick, view: View)
    requires e.pending.Some? && (e.pending.value.tick.None? || e.pending.value.tick.value == tick)
    ensures var r := Ingested(e, tick, view);
      Visible(r.0) == Visible(e) && r.0.schemas == e.schemas && r.0.pending.Some? && r.1 != Some(IngestActive) &&
      (r.1.None? <==> tick != NO_TICK && view.table in e.schemas) &&
      (r.1.None? ==> r.0.pending == Some(Pending(Some(tick), e.pending.value.views[view.table := view])))
  {
  }

  /** What ingesting views into an empty staged ingest comes to. */
  ghost predicate StagesTo(e: EngineState, tick: Tick, views: seq<View>, r: EngineStep) {
    Visible(r.0) == Visible(e) && r.0.schemas == e.schemas && r.0.pending.Some? && r.1 != Some(IngestActive) &&
    (r.1.None? <==> views == [] || (tick != NO_TICK && forall v :: v in views ==> v.table in e.schemas)) &&
    (r.1.None? ==> r.0.pending == Some(Pending(if views == [] then None else Some(tick), Staged(views))))
  }

  lemma StageOneMore(e: EngineState, tick: Tick, before: seq<View>, last: View, r: EngineStep)
    requires StagesTo(e, tick, before, r)
    ensures r.1.None? ==> StagesTo(e, tick, before + [last], Ingested(r.0, tick, last))
    ensures r.1.Some? ==> StagesTo(e, tick, before + [last], r)
  {
    assert (before + [last])[..|before|] == before;
    if r.1.None? {
      IngestStages(r.0, tick, last);
    }
    hide Ingested, Visible;
  }

  lemma {:induction false} IngestAllStages(e: EngineState, tick: Tick, views: seq<View>)
    requires e.pending == Some(Pending(None, map[]))
    ensures StagesTo(e, tick, views, IngestAll(e, tick, views))
  {
    if views != [] {
      var before, last := views[..|views| - 1], views[|views| - 1];
      assert views == before + [last];
      IngestAllStages(e, tick, before);
      StageOneMore(e, tick, before, last, IngestAll(e, tick, before));
      hide StagesTo, Ingested;
    }
  }

  lemma {:induction false} StagedViews(views: seq<View>)
    ensures forall n :: n in Staged(views) ==> Staged(views)[n] in views && Staged(views)[n].table == n
  {
    if views != [] {
      StagedViews(views[..|views| - 1]);
      assert views == views[..|views| - 1] + [views[|views| - 1]];
    }
  }

  /** A publication from a settled engine never finds another one active. It is all or nothing for readers: it
      succeeds exactly when every table has a schema, replacing cache, tick and snapshot at once, and on failure the
      engine is exactly what it was. */
  lemma PublicationIsAtomic(e: EngineState, views: seq<View>, s: Snapshot)
    requires Settled(e) && s.tick != NO_TICK
    requires forall v :: v in views ==> v.tick == s.tick
    ensures var r := Publication(e, s.tick, views, s);
      r.1 != Some(IngestActive) && Settled(r.0) &&
      (r.1.None? <==> forall v :: v in views ==> v.table in e.schemas) &&
      (r.1.Some? ==> r.0 == e) &&
      (r.1.None? ==> r.0 == e.(cache := Staged(views), latestTick := s.tick, latestSnapshot := Some(s)))
  {
    IngestAllStages(Begun(e).0, s.tick, views);
    StagedViews(views);
  }
}
